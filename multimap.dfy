/** An ordered multi-key association (std::multimap) as a key-sorted sequence of entries.
    Duplicate keys are allowed; among equal keys, entries stand in insertion order. */
module MultiMap {
  import opened Basics

  function Keys<V>(es: seq<(Bytes, V)>): (ks: seq<Bytes>)
    ensures |ks| == |es|
    ensures forall i :: 0 <= i < |es| ==> ks[i] == es[i].0
  {
    seq(|es|, i requires 0 <= i < |es| => es[i].0)
  }

  /** Keys never decrease from left to right. */
  ghost predicate Sorted(ks: seq<Bytes>)
  {
    forall i, j :: 0 <= i < j < |ks| ==> !Less(ks[j], ks[i])
  }

  /** The values stored under key k, in the order the multimap iterates them
      (the equal range of k). */
  function ValuesOf<V>(es: seq<(Bytes, V)>, k: Bytes): seq<V>
  {
    if es == [] then []
    else (if es[0].0 == k then [es[0].1] else []) + ValuesOf(es[1..], k)
  }

  /** The position where multimap::insert puts a new entry with key k: the end of
      k's equal range, that is, just before the first key above k. */
  function UpperBound(ks: seq<Bytes>, k: Bytes): (p: nat)
    ensures p <= |ks|
    ensures forall i :: 0 <= i < p ==> !Less(k, ks[i])
    ensures Sorted(ks) ==> forall i :: p <= i < |ks| ==> Less(k, ks[i])
  {
    if ks == [] || Less(k, ks[0]) then
      SortedAboveHead(ks, k);
      0
    else
      assert Sorted(ks) ==> Sorted(ks[1..]);
      1 + UpperBound(ks[1..], k)
  }

  lemma {:induction false} SortedAboveHead(ks: seq<Bytes>, k: Bytes)
    requires ks != [] ==> Less(k, ks[0])
    ensures Sorted(ks) ==> forall i :: 0 <= i < |ks| ==> Less(k, ks[i])
  {
    if ks != [] && Sorted(ks) {
      forall i | 0 < i < |ks|
        ensures Less(k, ks[i])
      {
        LessBeforeNotLess(k, ks[0], ks[i]);
      }
    }
  }

  /** multimap::insert: the new entry goes just before the first key above k, that is,
      at the end of k's equal range; every earlier entry is kept, in order. */
  function Insert<V>(es: seq<(Bytes, V)>, k: Bytes, v: V): (r: seq<(Bytes, V)>)
    ensures |r| == |es| + 1
    ensures multiset(r) == multiset(es) + multiset{(k, v)}
  {
    var p := UpperBound(Keys(es), k);
    var front, back := es[..p], es[p..];
    assert es == front + back;
    assert multiset(front + [(k, v)] + back) == multiset(front) + multiset{(k, v)} + multiset(back);
    front + [(k, v)] + back
  }

  /** Insert keeps the keys in order. */
  lemma {:induction false} InsertSorted<V>(es: seq<(Bytes, V)>, k: Bytes, v: V)
    requires Sorted(Keys(es))
    ensures Sorted(Keys(Insert(es, k, v)))
  {
    var r := Insert(es, k, v);
    var p := UpperBound(Keys(es), k);
    forall i, j | 0 <= i < j < |r|
      ensures !Less(Keys(r)[j], Keys(r)[i])
    {
      InsertIndex(es, k, v, i);
      InsertIndex(es, k, v, j);
      if i == p && Less(r[j].0, k) {
        assert Less(k, es[j - 1].0);
        LessTransitive(k, r[j].0, k);
        LessIrreflexive(k);
      } else if i < p && j > p {
        assert Keys(es)[i] == r[i].0 && Keys(es)[j - 1] == r[j].0;
      }
    }
  }

  /** Entry i after Insert: the old entry i before the insertion point, the new entry at it,
      the old entry i - 1 after it. */
  lemma InsertIndex<V>(es: seq<(Bytes, V)>, k: Bytes, v: V, i: nat)
    requires i <= |es|
    ensures Insert(es, k, v)[i] ==
      if i < UpperBound(Keys(es), k) then es[i]
      else if i == UpperBound(Keys(es), k) then (k, v)
      else es[i - 1]
  {
  }

  /** The index of the last entry with key k: the one multimap lookups return here. */
  function FindLast(ks: seq<Bytes>, k: Bytes): (r: Option<nat>)
    ensures r.None? <==> forall i :: 0 <= i < |ks| ==> ks[i] != k
    ensures r.Some? ==> r.value < |ks| && ks[r.value] == k
    ensures r.Some? ==> forall j :: r.value < j < |ks| ==> ks[j] != k
  {
    if ks == [] then None
    else if ks[|ks| - 1] == k then Some(|ks| - 1)
    else FindLast(ks[..|ks| - 1], k)
  }

  lemma {:induction false} ValuesOfAppend<V>(a: seq<(Bytes, V)>, b: seq<(Bytes, V)>, k: Bytes)
    ensures ValuesOf(a + b, k) == ValuesOf(a, k) + ValuesOf(b, k)
  {
    var c := a + b;
    if a == [] {
      assert c == b;
    } else {
      assert c[0] == a[0] && c[1..] == a[1..] + b;
      var head := if a[0].0 == k then [a[0].1] else [];
      assert ValuesOf(c, k) == head + ValuesOf(c[1..], k);
      assert ValuesOf(a, k) == head + ValuesOf(a[1..], k);
      ValuesOfAppend(a[1..], b, k);
    }
  }

  /** No key equals k: nothing is stored under k. */
  lemma {:induction false} ValuesOfAbsent<V>(es: seq<(Bytes, V)>, k: Bytes)
    requires forall i :: 0 <= i < |es| ==> es[i].0 != k
    ensures ValuesOf(es, k) == []
  {
    if es != [] {
      ValuesOfAbsent(es[1..], k);
    }
  }

  /** The last value in k's equal range is the value of the entry FindLast picks. */
  lemma {:induction false} FindLastIsLastOfRange<V>(es: seq<(Bytes, V)>, k: Bytes)
    ensures FindLast(Keys(es), k).None? <==> ValuesOf(es, k) == []
    ensures FindLast(Keys(es), k).Some? ==>
      ValuesOf(es, k) != [] && ValuesOf(es, k)[|ValuesOf(es, k)| - 1] == es[FindLast(Keys(es), k).value].1
  {
    if es != [] {
      var n := |es| - 1;
      var front := es[..n];
      assert es == front + [es[n]];
      ValuesOfAppend(front, [es[n]], k);
      assert ValuesOf([es[n]], k) == (if es[n].0 == k then [es[n].1] else []);
      assert Keys(es)[..n] == Keys(front);
      if es[n].0 != k {
        FindLastIsLastOfRange(front, k);
      }
    }
  }

  /** Sorted, with every key above k: k's equal range is empty. */
  lemma {:induction false} SortedAboveHasNone<V>(es: seq<(Bytes, V)>, p: nat, k: Bytes)
    requires p <= |es|
    requires forall i :: p <= i < |es| ==> Less(k, es[i].0)
    ensures ValuesOf(es[p..], k) == []
  {
    var back := es[p..];
    forall i | 0 <= i < |back|
      ensures back[i].0 != k
    {
      assert back[i] == es[p + i];
      if es[p + i].0 == k {
        LessIrreflexive(k);
      }
    }
    ValuesOfAbsent(back, k);
  }

  lemma {:induction false} ValuesOfSplit<V>(a: seq<(Bytes, V)>, e: (Bytes, V), b: seq<(Bytes, V)>, q: Bytes)
    ensures ValuesOf(a + [e] + b, q) == ValuesOf(a, q) + (if e.0 == q then [e.1] else []) + ValuesOf(b, q)
    ensures ValuesOf(a + b, q) == ValuesOf(a, q) + ValuesOf(b, q)
  {
    ValuesOfAppend(a + [e], b, q);
    ValuesOfAppend(a, [e], q);
    ValuesOfAppend(a, b, q);
    assert ValuesOf([e], q) == (if e.0 == q then [e.1] else []) + ValuesOf([e][1..], q);
  }

  /** k's range after Insert, split at the insertion point. */
  lemma {:induction false} InsertSplitsRange<V>(es: seq<(Bytes, V)>, k: Bytes, v: V, q: Bytes, p: nat)
    requires p == UpperBound(Keys(es), k)
    ensures p <= |es|
    ensures ValuesOf(Insert(es, k, v), q) == ValuesOf(es[..p], q) + (if q == k then [v] else []) + ValuesOf(es[p..], q)
    ensures ValuesOf(es, q) == ValuesOf(es[..p], q) + ValuesOf(es[p..], q)
  {
    assert es == es[..p] + es[p..];
    ValuesOfSplit(es[..p], (k, v), es[p..], q);
  }

  /** Inserting (k, v) appends v to the end of k's equal range and leaves every
      other key's range as it was. */
  lemma {:induction false} InsertValuesOf<V>(es: seq<(Bytes, V)>, k: Bytes, v: V, q: Bytes)
    requires Sorted(Keys(es))
    ensures ValuesOf(Insert(es, k, v), q) == ValuesOf(es, q) + (if q == k then [v] else [])
  {
    var p := UpperBound(Keys(es), k);
    if q == k {
      assert ValuesOf(es[p..], k) == [] by {
        SortedAboveHasNone(es, p, k);
      }
      InsertSplitsRange(es, k, v, q, p);
    } else {
      InsertSplitsRange(es, k, v, q, p);
    }
  }

  /** Inserting a whole sequence of entries one by one, in order. */
  /** The values under k of a non-empty list: those of all but its last entry, then the last
      entry's value if its key is k. */
  lemma ValuesOfSnoc<V>(rs: seq<(Bytes, V)>, k: Bytes)
    requires rs != []
    ensures var n := |rs| - 1;
      ValuesOf(rs, k) == ValuesOf(rs[..n], k) + (if rs[n].0 == k then [rs[n].1] else [])
  {
    var n := |rs| - 1;
    assert rs == rs[..n] + [rs[n]];
    ValuesOfAppend(rs[..n], [rs[n]], k);
    assert ValuesOf([rs[n]], k) == (if rs[n].0 == k then [rs[n].1] else []) + ValuesOf([rs[n]][1..], k);
  }

  function InsertAll<V>(m: seq<(Bytes, V)>, rs: seq<(Bytes, V)>): (r: seq<(Bytes, V)>)
    ensures |r| == |m| + |rs|
    ensures multiset(r) == multiset(m) + multiset(rs)
  {
    if rs == [] then m
    else
      var n := |rs| - 1;
      assert rs == rs[..n] + [rs[n]];
      Insert(InsertAll(m, rs[..n]), rs[n].0, rs[n].1)
  }

  /** Inserting one more record of rs extends the inserted prefix by that record. */
  lemma InsertAllStep<V>(m: seq<(Bytes, V)>, rs: seq<(Bytes, V)>, i: nat)
    requires i < |rs|
    ensures InsertAll(m, rs[..i + 1]) == Insert(InsertAll(m, rs[..i]), rs[i].0, rs[i].1)
  {
    assert rs[..i + 1][..i] == rs[..i];
  }

  lemma {:induction false} InsertAllSorted<V>(m: seq<(Bytes, V)>, rs: seq<(Bytes, V)>)
    requires Sorted(Keys(m))
    ensures Sorted(Keys(InsertAll(m, rs)))
  {
    if rs != [] {
      var n := |rs| - 1;
      InsertAllSorted(m, rs[..n]);
      InsertSorted(InsertAll(m, rs[..n]), rs[n].0, rs[n].1);
    }
  }

  /** Every inserted entry is kept, duplicates included: the equal range of each key
      grows by exactly that key's inserted values, in insertion order. */
  lemma {:induction false} InsertAllValuesOf<V>(m: seq<(Bytes, V)>, rs: seq<(Bytes, V)>, q: Bytes)
    requires Sorted(Keys(m))
    ensures ValuesOf(InsertAll(m, rs), q) == ValuesOf(m, q) + ValuesOf(rs, q)
  {
    if rs != [] {
      var n := |rs| - 1;
      var prev := InsertAll(m, rs[..n]);
      assert InsertAll(m, rs) == Insert(prev, rs[n].0, rs[n].1);
      InsertAllSorted(m, rs[..n]);
      InsertValuesOf(prev, rs[n].0, rs[n].1, q);
      InsertAllValuesOf(m, rs[..n], q);
      ValuesOfSnoc(rs, q);
    }
  }
}
