/** Concatenation of a sequence of sequences, the glue between a node and its children. */
module Seqs {

  /** The concatenation of all parts, left to right. */
  function Flatten<T>(ss: seq<seq<T>>): seq<T>
  {
    if |ss| == 0 then [] else Flatten(ss[..|ss| - 1]) + ss[|ss| - 1]
  }

  lemma {:induction false} FlattenAppend<T>(a: seq<seq<T>>, b: seq<seq<T>>)
    ensures Flatten(a + b) == Flatten(a) + Flatten(b)
    decreases |b|
  {
    if |b| == 0 {
      assert a + b == a;
    } else {
      var b' := b[..|b| - 1];
      assert (a + b)[..|a + b| - 1] == a + b' by { DropLastOfAppend(a, b); }
      FlattenAppend(a, b');
      assert Flatten(a + b) == Flatten(a + b') + b[|b| - 1];
    }
  }

  /** Pure sequence fact kept apart so that no `Flatten` term is in scope while it is proved. */
  lemma DropLastOfAppend<T>(a: seq<T>, b: seq<T>)
    requires |b| > 0
    ensures (a + b)[..|a + b| - 1] == a + b[..|b| - 1]
  {
  }

  lemma SplitThree<T>(ss: seq<T>, i: int)
    requires 0 <= i < |ss|
    ensures ss == ss[..i] + [ss[i]] + ss[i + 1..]
  {
  }

  lemma SplitFour<T>(ss: seq<T>, i: int)
    requires 0 <= i && i + 1 < |ss|
    ensures ss == ss[..i] + [ss[i], ss[i + 1]] + ss[i + 2..]
  {
  }

  lemma FlattenSingle<T>(x: seq<T>)
    ensures Flatten([x]) == x
  {
    assert [x][..0] == [];
  }

  lemma FlattenPair<T>(x: seq<T>, y: seq<T>)
    ensures Flatten([x, y]) == x + y
  {
    assert [x, y][..1] == [x];
    FlattenSingle(x);
  }

  /** Flatten of `front + mid + back` with the middle parts already flattened. */
  lemma FlattenThree<T>(front: seq<seq<T>>, mid: seq<seq<T>>, back: seq<seq<T>>)
    ensures Flatten(front + mid + back) == Flatten(front) + Flatten(mid) + Flatten(back)
  {
    FlattenAppend(front + mid, back);
    FlattenAppend(front, mid);
  }

  /** Cutting the parts around index `i` cuts the concatenation the same way. */
  lemma FlattenAround<T>(ss: seq<seq<T>>, i: int)
    requires 0 <= i < |ss|
    ensures Flatten(ss) == Flatten(ss[..i]) + ss[i] + Flatten(ss[i + 1..])
  {
    SplitThree(ss, i);
    FlattenThree(ss[..i], [ss[i]], ss[i + 1..]);
    FlattenSingle(ss[i]);
  }

  /** Cutting the parts at `i` cuts the concatenation at the same place. */
  lemma FlattenCut<T>(ss: seq<seq<T>>, i: int)
    requires 0 <= i <= |ss|
    ensures Flatten(ss) == Flatten(ss[..i]) + Flatten(ss[i..])
  {
    assert ss == ss[..i] + ss[i..];
    FlattenAppend(ss[..i], ss[i..]);
  }

  /** Every element of the concatenation comes from some part. */
  lemma {:induction false} FlattenMember<T>(ss: seq<seq<T>>, k: int) returns (i: int, j: int)
    requires 0 <= k < |Flatten(ss)|
    ensures 0 <= i < |ss| && 0 <= j < |ss[i]| && Flatten(ss)[k] == ss[i][j]
    decreases |ss|
  {
    var init := ss[..|ss| - 1];
    if k < |Flatten(init)| {
      i, j := FlattenMember(init, k);
    } else {
      i, j := |ss| - 1, k - |Flatten(init)|;
    }
  }

  /** Replacing two neighbouring parts by two others with the same concatenation keeps the whole. */
  lemma FlattenReplacePair<T>(ss: seq<seq<T>>, i: int, x: seq<T>, y: seq<T>)
    requires 0 <= i && i + 1 < |ss|
    requires x + y == ss[i] + ss[i + 1]
    ensures Flatten(ss[..i] + [x, y] + ss[i + 2..]) == Flatten(ss)
  {
    SplitFour(ss, i);
    FlattenThree(ss[..i], [x, y], ss[i + 2..]);
    FlattenThree(ss[..i], [ss[i], ss[i + 1]], ss[i + 2..]);
    FlattenPair(x, y);
    FlattenPair(ss[i], ss[i + 1]);
  }

  /** Updating two neighbouring places is replacing that pair. */
  lemma UpdatePair<T>(s: seq<T>, i: int, x: T, y: T)
    requires 0 <= i && i + 1 < |s|
    ensures s[i := x][i + 1 := y] == s[..i] + [x, y] + s[i + 2..]
  {
  }

  /** Merging two neighbouring parts into their concatenation keeps the whole. */
  lemma FlattenJoinPair<T>(ss: seq<seq<T>>, i: int, x: seq<T>)
    requires 0 <= i && i + 1 < |ss|
    requires x == ss[i] + ss[i + 1]
    ensures Flatten(ss[..i] + [x] + ss[i + 2..]) == Flatten(ss)
  {
    SplitFour(ss, i);
    FlattenThree(ss[..i], [x], ss[i + 2..]);
    FlattenThree(ss[..i], [ss[i], ss[i + 1]], ss[i + 2..]);
    FlattenSingle(x);
    FlattenPair(ss[i], ss[i + 1]);
  }

  /** Every element of the concatenation belongs to some part. */
  lemma FlattenIn<T>(ss: seq<seq<T>>, x: T)
    requires x in Flatten(ss)
    ensures exists i :: 0 <= i < |ss| && x in ss[i]
  {
    var k :| 0 <= k < |Flatten(ss)| && Flatten(ss)[k] == x;
    var i, j := FlattenMember(ss, k);
    assert ss[i][j] == x;
  }

  lemma FlattenFront<T>(ss: seq<seq<T>>)
    requires |ss| > 0
    ensures Flatten(ss) == ss[0] + Flatten(ss[1..])
  {
    FlattenAround(ss, 0);
    assert |ss[..0]| == 0;
    EmptyLeft(Flatten(ss[..0]), ss[0], Flatten(ss[1..]));
  }

  lemma EmptyLeft<T>(e: seq<T>, a: seq<T>, b: seq<T>)
    requires |e| == 0
    ensures e + a + b == a + b
  {
  }
}
