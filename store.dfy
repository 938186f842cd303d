/** The send-side store as a value: a key-sorted sequence of (key, value) entries,
    what a typed lookup on it returns, and the wire array it materializes into. */
module Store {
  import opened Basics
  import opened MultiMap
  import opened Values

  type Entries = seq<(Bytes, MetadataValue)>

  /** The outcome of a typed lookup: the C++ bool result is Found?. A stored value of another
      kind than the one asked for is reported instead of being reinterpreted. */
  datatype Lookup<+T> = Found(value: T) | NotFound | TypeMismatch(stored: ValueKind)

  function Last<T>(s: seq<T>): T
    requires s != []
  {
    s[|s| - 1]
  }

  /** GetMetadata on the store's contents: multimap::find, resolved to the most recently
      added entry with the key, then the kind check. */
  function Get(es: Entries, key: Bytes, kind: ValueKind): (r: Lookup<MetadataValue>)
    ensures r.NotFound? <==> ValuesOf(es, key) == []
    ensures r.Found? ==> KindOf(r.value) == kind && r.value == Last(ValuesOf(es, key))
    ensures r.TypeMismatch? ==> r.stored != kind && r.stored == KindOf(Last(ValuesOf(es, key)))
  {
    FindLastIsLastOfRange(es, key);
    match FindLast(Keys(es), key)
    case None => NotFound
    case Some(i) =>
      var v := es[i].1;
      if KindOf(v) == kind then Found(v) else TypeMismatch(KindOf(v))
  }

  /** Two stores with the same range for a key answer every lookup of it alike. */
  lemma GetByRange(es: Entries, fs: Entries, key: Bytes, kind: ValueKind)
    requires ValuesOf(es, key) == ValuesOf(fs, key)
    ensures Get(es, key, kind) == Get(fs, key, kind)
  {
  }

  /** Round trip: right after adding (k, v), a lookup of k for v's kind yields v. */
  lemma {:induction false} GetAfterAdd(es: Entries, k: Bytes, v: MetadataValue)
    requires Sorted(Keys(es))
    ensures Get(Insert(es, k, v), k, KindOf(v)) == Found(v)
  {
    InsertValuesOf(es, k, v, k);
    assert Last(ValuesOf(Insert(es, k, v), k)) == v;
  }

  /** For a key with no entry yet, adding (k, v) leaves v as the only value under k, so a
      lookup returns v whichever entry of the equal range find picks. */
  lemma {:induction false} AddFreshKey(es: Entries, k: Bytes, v: MetadataValue)
    requires Sorted(Keys(es)) && ValuesOf(es, k) == []
    ensures ValuesOf(Insert(es, k, v), k) == [v]
  {
    InsertValuesOf(es, k, v, k);
  }

  /** Adding under one key never changes what a lookup of another key yields. */
  lemma {:induction false} GetAfterAddOther(es: Entries, k: Bytes, v: MetadataValue, q: Bytes, kind: ValueKind)
    requires Sorted(Keys(es)) && q != k
    ensures Get(Insert(es, k, v), q, kind) == Get(es, q, kind)
  {
    InsertValuesOf(es, k, v, q);
    GetByRange(Insert(es, k, v), es, q, kind);
  }

  /** Replacing the value of the entry a lookup of k resolves to: the next lookup of k
      sees the new value, and lookups of every other key are unaffected. */
  lemma {:induction false} GetAfterSet(es: Entries, k: Bytes, i: nat, v: MetadataValue, q: Bytes, kind: ValueKind)
    requires FindLast(Keys(es), k) == Some(i)
    ensures Get(es[i := (k, v)], k, KindOf(v)) == Found(v)
    ensures q != k ==> Get(es[i := (k, v)], q, kind) == Get(es, q, kind)
  {
    var fs := es[i := (k, v)];
    assert Keys(fs) == Keys(es);
    if q != k {
      match FindLast(Keys(es), q)
      case None =>
      case Some(j) =>
        assert j != i;
        assert fs[j] == es[j];
    }
  }

  /** GetMetadata as the header writes it: dst is a pointer parameter taken by value, so
      the assignment to it rebinds the callee's copy only. The result is the bool and what
      the caller's pointer holds afterwards, which is what it held before. */
  function GetAsWritten(es: Entries, key: Bytes, dst: Option<MetadataValue>): (r: (bool, Option<MetadataValue>))
    ensures r.0 <==> ValuesOf(es, key) != []
    ensures r.1 == dst
  {
    FindLastIsLastOfRange(es, key);
    (FindLast(Keys(es), key).Some?, dst)
  }

  /** Right after adding (k, v), the lookup as written reports success while a caller's
      null pointer stays null; Get, by contrast, hands back v (GetAfterAdd). */
  lemma {:induction false} AddThenGetAsWritten(es: Entries, k: Bytes, v: MetadataValue)
    requires Sorted(Keys(es))
    ensures GetAsWritten(Insert(es, k, v), k, None) == (true, None)
    ensures Get(Insert(es, k, v), k, KindOf(v)) == Found(v)
  {
    InsertValuesOf(es, k, v, k);
    GetAfterAdd(es, k, v);
  }

  /** Why materialization failed: the key of the first entry whose Serialize did not
      return OK, and the status it returned. */
  datatype SerializeError = SerializeError(key: Bytes, status: Status)

  /** Serializing every entry in key order; stops at the first failure. */
  function SerializeAll(es: Entries): (r: Result<seq<WireRecord>, SerializeError>)
    ensures r.Success? <==> forall i :: 0 <= i < |es| ==> Serialize(es[i].1).status == OK
    ensures r.Success? ==> |r.value| == |es|
    ensures r.Success? ==> forall i :: 0 <= i < |es| ==> r.value[i] == WireRecord(es[i].0, Serialize(es[i].1).slice)
    ensures r.Failure? ==> exists i :: 0 <= i < |es| && FirstFailure(es, i) && r.error == SerializeError(es[i].0, Serialize(es[i].1).status)
  {
    if es == [] then Success([])
    else
      var n := |es| - 1;
      var front := es[..n];
      assert forall i :: 0 <= i < n ==> front[i] == es[i];
      match SerializeAll(front)
      case Failure(e) => Failure(e)
      case Success(recs) =>
        var s := Serialize(es[n].1);
        if s.status == OK then Success(recs + [WireRecord(es[n].0, s.slice)])
        else
          assert FirstFailure(es, n);
          Failure(SerializeError(es[n].0, s.status))
  }

  /** Entry i is the first entry whose value fails to serialize. */
  ghost predicate FirstFailure(es: Entries, i: nat)
    requires i < |es|
  {
    Serialize(es[i].1).status != OK && forall j :: 0 <= j < i ==> Serialize(es[j].1).status == OK
  }

  /** CreateCoreMetadataArray(&count, errorDetails): one record per entry, in key order, each
      the entry's key and its value's serialized bytes; a non-empty errorDetails adds one last
      record under the reserved status-details key; a failing Serialize yields no array. */
  function WireArray(es: Entries, errorDetails: Bytes): (r: Result<seq<WireRecord>, SerializeError>)
    ensures r.Success? <==> forall i :: 0 <= i < |es| ==> Serialize(es[i].1).status == OK
    ensures r.Success? ==> |r.value| == |es| + (if errorDetails == [] then 0 else 1)
    ensures r.Success? ==> forall i :: 0 <= i < |es| ==> r.value[i] == WireRecord(es[i].0, Serialize(es[i].1).slice)
    ensures r.Success? && errorDetails != [] ==> r.value[|es|] == WireRecord(StatusDetailsKey, errorDetails)
    ensures r.Failure? ==> exists i :: 0 <= i < |es| && FirstFailure(es, i) && r.error == SerializeError(es[i].0, Serialize(es[i].1).status)
  {
    match SerializeAll(es)
    case Failure(e) => Failure(e)
    case Success(recs) =>
      if errorDetails == [] then Success(recs)
      else Success(recs + [WireRecord(StatusDetailsKey, errorDetails)])
  }

  /** When every entry serializes, WireArray is exactly the records that pair each key
      with its value's bytes, followed by the status-details record if there is one. */
  lemma WireArraySucceeds(es: Entries, errorDetails: Bytes, recs: seq<WireRecord>)
    requires forall i :: 0 <= i < |es| ==> Serialize(es[i].1).status == OK
    requires |recs| == |es| + (if errorDetails == [] then 0 else 1)
    requires forall i :: 0 <= i < |es| ==> recs[i] == WireRecord(es[i].0, Serialize(es[i].1).slice)
    requires errorDetails != [] ==> recs[|es|] == WireRecord(StatusDetailsKey, errorDetails)
    ensures WireArray(es, errorDetails) == Success(recs)
  {
    var w := WireArray(es, errorDetails);
    assert w.Success?;
    var r := w.value;
    assert |r| == |recs|;
    forall i | 0 <= i < |r|
      ensures r[i] == recs[i]
    {
    }
    assert r == recs;
  }

  /** The entries before i serialize and entry i does not: WireArray fails, naming entry i. */
  lemma WireArrayFails(es: Entries, errorDetails: Bytes, i: nat)
    requires i < |es| && FirstFailure(es, i)
    ensures WireArray(es, errorDetails) == Failure(SerializeError(es[i].0, Serialize(es[i].1).status))
  {
  }

  /** A store holding only strings always materializes, and with empty error details into
      exactly one record per entry. */
  lemma StringStoreMaterializes(es: Entries)
    requires forall i :: 0 <= i < |es| ==> es[i].1.StringValue?
    ensures WireArray(es, []).Success?
    ensures |WireArray(es, []).value| == |es|
    ensures forall i :: 0 <= i < |es| ==> WireArray(es, []).value[i] == WireRecord(es[i].0, es[i].1.str)
  {
  }

  /** The materialization scenario: a string entry added under key first, then a proto entry
      whose message encodes to b under a key below it (as "proto" is below "string") give
      two records, each key with its value's bytes, in key order. */
  lemma TwoEntriesMaterialize(first: Bytes, str: Bytes, second: Bytes, b: Bytes)
    requires Less(second, first)
    ensures var es := Insert(Insert([], first, StringValue(str)), second, ProtoValue(Some(b)));
      WireArray(es, []) == Success([WireRecord(second, b), WireRecord(first, str)])
  {
    InsertBelowSingle(first, StringValue(str), second, ProtoValue(Some(b)));
    StringProtoRecords(second, b, first, str);
  }

  /** Adding a key below the only key of a one-entry store puts it in front. */
  lemma InsertBelowSingle<V>(first: Bytes, v1: V, second: Bytes, v2: V)
    requires Less(second, first)
    ensures Insert(Insert([], first, v1), second, v2) == [(second, v2), (first, v1)]
  {
    var none: seq<(Bytes, V)> := [];
    assert UpperBound(Keys(none), first) == 0;
    assert Insert(none, first, v1) == none[..0] + [(first, v1)] + none[0..];
    var one := [(first, v1)];
    assert Keys(one) == [first];
    assert UpperBound(Keys(one), second) == 0;
    assert Insert(one, second, v2) == one[..0] + [(second, v2)] + one[0..];
  }

  /** A proto entry that encodes to b followed by a string entry materialize to their two records. */
  lemma StringProtoRecords(k1: Bytes, b: Bytes, k2: Bytes, str: Bytes)
    ensures WireArray([(k1, ProtoValue(Some(b))), (k2, StringValue(str))], [])
            == Success([WireRecord(k1, b), WireRecord(k2, str)])
  {
    var es := [(k1, ProtoValue(Some(b))), (k2, StringValue(str))];
    WireArraySucceeds(es, [], [WireRecord(k1, b), WireRecord(k2, str)]);
  }

  /** The keys of that scenario are ordered so: "proto" is below "string". */
  lemma ProtoBelowString()
    ensures Less(Ascii("proto"), Ascii("string"))
  {
  }
}
