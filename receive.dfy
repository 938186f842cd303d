/** The receive side: the raw record array the transport fills, and internal::MetadataMap,
    which owns one such array and indexes its records by key in a multimap of views. */
module Receive {
  import opened Basics
  import opened MultiMap
  import opened Values
  import opened Store

  /** grpc_metadata_array: count records in use out of capacity allocated slots. */
  class MetadataArray {
    var count: nat
    var capacity: nat
    var metadata: array?<WireRecord>

    ghost predicate Valid()
      reads this
    {
      && count <= capacity
      && (metadata == null ==> capacity == 0)
      && (metadata != null ==> metadata.Length == capacity)
    }

    /** The records in use. */
    ghost function Records(): (rs: seq<WireRecord>)
      reads this, metadata
      requires Valid()
      ensures |rs| == count
    {
      if metadata == null then [] else metadata[..count]
    }

    /** The all-zero array: no records, no storage. */
    constructor Zeroed()
      ensures Valid() && count == 0 && capacity == 0 && metadata == null
    {
      count, capacity, metadata := 0, 0, null;
    }

    /** What the transport does with the array handed out by arr(): a fresh buffer holding
        the received records, all of them in use. */
    method Deliver(recs: seq<WireRecord>)
      modifies this
      ensures Valid() && fresh(metadata) && Records() == recs
    {
      metadata := new WireRecord[|recs|](i requires 0 <= i < |recs| => recs[i]);
      count, capacity := |recs|, |recs|;
    }
  }

  /** The (key view, value view) pairs the records stand for, in record order. */
  function Pairs(rs: seq<WireRecord>): (ps: seq<(Bytes, Bytes)>)
    ensures |ps| == |rs|
    ensures forall i :: 0 <= i < |rs| ==> ps[i] == (rs[i].key, rs[i].value)
  {
    seq(|rs|, i requires 0 <= i < |rs| => (rs[i].key, rs[i].value))
  }

  class MetadataMap {
    /** arr_: the owned record array; arr() hands out this very object. */
    const arr: MetadataArray
    /** map_: string_ref key to string_ref value, in key order, equal keys in insertion order. */
    var index: seq<(Bytes, Bytes)>
    /** Whether grpc_metadata_array_destroy has run on arr_. */
    ghost var released: bool

    ghost predicate Valid()
      reads this, arr
    {
      arr.Valid() && Sorted(Keys(index))
    }

    /** The constructor zeroes arr_ and starts with an empty map_. */
    constructor ()
      ensures Valid() && fresh(arr) && !released
      ensures arr.count == 0 && arr.capacity == 0 && arr.metadata == null
      ensures index == []
    {
      arr := new MetadataArray.Zeroed();
      index := [];
      released := false;
    }

    /** FillMap(): inserts one pair per record in use, in record order, into map_ without
        clearing it first. */
    method FillMap()
      requires Valid() && !released
      modifies this
      ensures Valid() && !released
      ensures index == InsertAll(old(index), Pairs(arr.Records()))
    {
      ghost var ps := Pairs(arr.Records());
      var filled := IndexRecords(index, arr.metadata, arr.count);
      assert filled == InsertAll(index, ps);
      InsertAllSorted(index, ps);
      index := filled;
      assert Pairs(arr.Records()) == ps;
    }

    /** ~MetadataMap(): releases arr_, whether or not FillMap ran; map_ is left as it was. */
    method Destroy()
      requires !released
      modifies this
      ensures released && index == old(index)
    {
      released := true;
    }
  }

  /** The loop of FillMap: inserts the pair of each of the first n records of a, in order. */
  method IndexRecords(m: seq<(Bytes, Bytes)>, a: array?<WireRecord>, n: nat) returns (r: seq<(Bytes, Bytes)>)
    requires n == 0 || (a != null && n <= a.Length)
    ensures r == InsertAll(m, Pairs(if a == null then [] else a[..n]))
  {
    if n == 0 {
      assert Pairs(if a == null then [] else a[..n]) == [];
      return m;
    }
    ghost var ps := Pairs(a[..n]);
    r := m;
    var i := 0;
    while i < n
      invariant 0 <= i <= n
      invariant r == InsertAll(m, ps[..i])
    {
      var rec := a[i];
      assert Insert(r, rec.key, rec.value) == InsertAll(m, ps[..i + 1]) by {
        assert ps[i] == (rec.key, rec.value);
        InsertAllStep(m, ps, i);
      }
      r := Insert(r, rec.key, rec.value);
      i := i + 1;
    }
    assert ps[..n] == ps;
  }

  /** FillMap keeps every record: the values indexed under q are the earlier ones followed
      by those of the records with key q, in record order, duplicates included. */
  lemma {:induction false} FillKeepsEveryRecord(m: seq<(Bytes, Bytes)>, rs: seq<WireRecord>, q: Bytes)
    requires Sorted(Keys(m))
    ensures |InsertAll(m, Pairs(rs))| == |m| + |rs|
    ensures ValuesOf(InsertAll(m, Pairs(rs)), q) == ValuesOf(m, q) + RecordValues(rs, q)
  {
    InsertAllValuesOf(m, Pairs(rs), q);
    PairsValues(rs, q);
  }

  /** The values of the records with key q, in record order. */
  function RecordValues(rs: seq<WireRecord>, q: Bytes): (vs: seq<Bytes>)
    ensures |vs| <= |rs|
  {
    if rs == [] then []
    else (if rs[0].key == q then [rs[0].value] else []) + RecordValues(rs[1..], q)
  }

  lemma {:induction false} PairsValues(rs: seq<WireRecord>, q: Bytes)
    ensures ValuesOf(Pairs(rs), q) == RecordValues(rs, q)
  {
    if rs != [] {
      assert Pairs(rs)[1..] == Pairs(rs[1..]);
      PairsValues(rs[1..], q);
    }
  }

  /** A second FillMap on the same array indexes every record a second time. */
  lemma {:induction false} FillTwice(rs: seq<WireRecord>, q: Bytes)
    ensures |InsertAll(InsertAll([], Pairs(rs)), Pairs(rs))| == 2 * |rs|
    ensures ValuesOf(InsertAll(InsertAll([], Pairs(rs)), Pairs(rs)), q) == RecordValues(rs, q) + RecordValues(rs, q)
  {
    var none: seq<(Bytes, Bytes)> := [];
    var once := InsertAll(none, Pairs(rs));
    assert Sorted(Keys(none));
    assert ValuesOf(none, q) == [];
    FillKeepsEveryRecord(none, rs, q);
    assert ValuesOf(once, q) == RecordValues(rs, q);
    InsertAllSorted(none, Pairs(rs));
    FillKeepsEveryRecord(once, rs, q);
  }

  /** The serialized bytes of each value, in order. */
  function Slices(vs: seq<MetadataValue>): (bs: seq<Bytes>)
    ensures |bs| == |vs|
    ensures forall i :: 0 <= i < |vs| ==> bs[i] == Serialize(vs[i]).slice
  {
    seq(|vs|, i requires 0 <= i < |vs| => Serialize(vs[i]).slice)
  }

  lemma {:induction false} RecordValuesOfEntries(es: Entries, rs: seq<WireRecord>, q: Bytes)
    requires |rs| == |es|
    requires forall i :: 0 <= i < |es| ==> rs[i] == WireRecord(es[i].0, Serialize(es[i].1).slice)
    ensures RecordValues(rs, q) == Slices(ValuesOf(es, q))
  {
    if es != [] {
      RecordValuesOfEntries(es[1..], rs[1..], q);
      var head := if es[0].0 == q then [es[0].1] else [];
      assert Slices(head) == if rs[0].key == q then [rs[0].value] else [];
      assert Slices(head + ValuesOf(es[1..], q)) == Slices(head) + Slices(ValuesOf(es[1..], q));
    }
  }

  /** End to end: when a sender's store materializes without error details and a fresh
      MetadataMap indexes the records, a key's values on the receiving side are the
      sender's values for that key, serialized, in the sender's order. */
  lemma {:induction false} SentThenIndexed(es: Entries, q: Bytes)
    requires WireArray(es, []).Success?
    ensures ValuesOf(InsertAll([], Pairs(WireArray(es, []).value)), q) == Slices(ValuesOf(es, q))
  {
    var rs := WireArray(es, []).value;
    var none: seq<(Bytes, Bytes)> := [];
    assert Sorted(Keys(none));
    assert ValuesOf(none, q) == [];
    FillKeepsEveryRecord(none, rs, q);
    RecordValuesOfEntries(es, rs, q);
  }
}
