/** The send-side MetadataContainer: a multimap from keys to type-erased, serializable
    values, each held in its own heap object so that a lookup can hand it out for update. */
module Container {
  import opened Basics
  import opened MultiMap
  import opened Values
  import opened Store

  /** SerializableModel<T>: the object each entry's shared_ptr points to, holding the value. */
  class SerializableModel {
    var obj: MetadataValue

    constructor (obj: MetadataValue)
      ensures this.obj == obj
    {
      this.obj := obj;
    }

    /** The erased Serialize: exactly what the held value's own Serialize returns. */
    function Serialize(): (r: Serialized)
      reads this
      ensures r == Values.Serialize(obj)
    {
      Values.Serialize(obj)
    }
  }

  class MetadataContainer {
    /** metadata_: entries in key order, equal keys in insertion order. */
    var metadata: seq<(Bytes, SerializableModel)>
    /** The value objects the entries point to. */
    ghost var Repr: set<SerializableModel>

    ghost predicate Valid()
      reads this
    {
      && Sorted(Keys(metadata))
      && (forall i :: 0 <= i < |metadata| ==> metadata[i].1 in Repr)
      && (forall i, j :: 0 <= i < j < |metadata| ==> metadata[i].1 != metadata[j].1)
    }

    /** The entries with the values their objects currently hold. */
    ghost function Contents(): (es: Entries)
      reads this, Repr
      requires Valid()
      ensures |es| == |metadata|
      ensures forall i :: 0 <= i < |metadata| ==> es[i] == (metadata[i].0, metadata[i].1.obj)
    {
      Snapshot(metadata)
    }

    constructor ()
      ensures Valid() && Contents() == [] && Repr == {}
    {
      metadata := [];
      Repr := {};
    }

    /** AddMetadata(key, value): never fails, accepts any key, wraps the value in a new
        object and inserts it at the end of key's equal range. */
    method AddMetadata(key: Bytes, value: MetadataValue)
      requires Valid()
      modifies this
      ensures Valid()
      ensures Contents() == Insert(old(Contents()), key, value)
      ensures forall j :: 0 <= j < |old(metadata)| ==> old(metadata)[j] in metadata
      ensures old(Repr) <= Repr && fresh(Repr - old(Repr))
    {
      ghost var ms := metadata;
      ghost var cs := Contents();
      var cell := new SerializableModel(value);
      assert Snapshot(ms) == cs;
      InsertSorted(ms, key, cell);
      InsertKeepsDistinct(ms, key, cell);
      InsertKeepsHeld(ms, key, cell, Repr);
      SnapshotInsert(ms, key, cell);
      metadata := Insert(metadata, key, cell);
      Repr := Repr + {cell};
    }

    /** GetMetadata<T>(key, &dst): true exactly when an entry has the key (Found), with the
        value of the most recently added such entry; a value of another kind than T is
        reported as a mismatch. Reads only. */
    function GetMetadata(key: Bytes, kind: ValueKind): (r: Lookup<MetadataValue>)
      reads this, Repr
      requires Valid()
      ensures r == Get(Contents(), key, kind)
    {
      assert Keys(Contents()) == Keys(metadata);
      match FindLast(Keys(metadata), key)
      case None => NotFound
      case Some(i) =>
        var v := metadata[i].1.obj;
        if KindOf(v) == kind then Found(v) else TypeMismatch(KindOf(v))
    }

    /** GetMutableMetadata<T>(key, &dst): the same lookup, handing out the entry's value
        object itself, so that writes through it change the stored value. */
    method GetMutableMetadata(key: Bytes, kind: ValueKind) returns (r: Lookup<SerializableModel>)
      requires Valid()
      ensures r.NotFound? <==> GetMetadata(key, kind).NotFound?
      ensures r.TypeMismatch? ==> GetMetadata(key, kind) == TypeMismatch(r.stored)
      ensures r.Found? ==> GetMetadata(key, kind) == Found(r.value.obj)
      ensures r.Found? ==> r.value in Repr
      ensures r.Found? ==> FindLast(Keys(metadata), key).Some? && metadata[FindLast(Keys(metadata), key).value].1 == r.value
    {
      match FindLast(Keys(metadata), key)
      case None =>
        r := NotFound;
      case Some(i) =>
        var cell := metadata[i].1;
        if KindOf(cell.obj) == kind {
          r := Found(cell);
        } else {
          r := TypeMismatch(KindOf(cell.obj));
        }
    }

    /** CreateCoreMetadataArray(&count, errorDetails): a fresh array of wire records built
        by serializing every entry in key order, plus the status-details record when
        errorDetails is non-empty; on a failing Serialize, no records and the error. */
    method CreateCoreMetadataArray(errorDetails: Bytes) returns (md: array<WireRecord>, count: nat, err: Option<SerializeError>)
      requires Valid()
      ensures fresh(md) && count == md.Length
      ensures WireArray(Contents(), errorDetails) == if err.None? then Success(md[..]) else Failure(err.value)
      ensures err.Some? ==> count == 0
      ensures Contents() == old(Contents())
    {
      md, count, err := Materialize(metadata, errorDetails);
    }
  }

  /** The loop behind CreateCoreMetadataArray: serializes the entries' objects in order
      into a fresh array, stopping at the first failure. */
  method Materialize(ms: seq<(Bytes, SerializableModel)>, errorDetails: Bytes) returns (md: array<WireRecord>, count: nat, err: Option<SerializeError>)
    ensures fresh(md) && count == md.Length
    ensures WireArray(Snapshot(ms), errorDetails) == if err.None? then Success(md[..]) else Failure(err.value)
    ensures err.Some? ==> count == 0
  {
    ghost var cs := Snapshot(ms);
    var n := |ms|;
    var out := new WireRecord[if errorDetails == [] then n else n + 1];
    var i := 0;
    while i < n
      invariant 0 <= i <= n
      invariant forall j :: 0 <= j < i ==> Serialize(cs[j].1).status == OK
      invariant forall j :: 0 <= j < i ==> out[j] == WireRecord(cs[j].0, Serialize(cs[j].1).slice)
    {
      var s := ms[i].1.Serialize();
      if s.status != OK {
        WireArrayFails(cs, errorDetails, i);
        md := new WireRecord[0];
        count, err := 0, Some(SerializeError(ms[i].0, s.status));
        assert Snapshot(ms) == cs;
        return;
      }
      out[i] := WireRecord(ms[i].0, s.slice);
      i := i + 1;
    }
    if errorDetails != [] {
      out[n] := WireRecord(StatusDetailsKey, errorDetails);
    }
    WireArraySucceeds(cs, errorDetails, out[..]);
    assert Snapshot(ms) == cs;
    md, count, err := out, out.Length, None;
  }

  /** A string entry added first, then a proto entry whose message encodes to b under a
      lower key: materializing with no error details gives two records in key order, each
      with its own value's bytes. */
  method AddTwoThenMaterialize(first: Bytes, str: Bytes, second: Bytes, b: Bytes) returns (md: array<WireRecord>, count: nat, err: Option<SerializeError>)
    requires Less(second, first)
    ensures err == None && count == 2
    ensures md[..] == [WireRecord(second, b), WireRecord(first, str)]
  {
    var c := new MetadataContainer();
    c.AddMetadata(first, StringValue(str));
    c.AddMetadata(second, ProtoValue(Some(b)));
    TwoEntriesMaterialize(first, str, second, b);
    ghost var es := c.Contents();
    assert WireArray(es, []) == Success([WireRecord(second, b), WireRecord(first, str)]);
    md, count, err := c.CreateCoreMetadataArray([]);
  }

  /** The materialization test's own scenario: "string" holding "bar", then "proto" holding
      a message that encodes to b, give the records ("proto", b) and ("string", "bar"). */
  method TwoEntryScenario(b: Bytes) returns (md: array<WireRecord>, count: nat, err: Option<SerializeError>)
    ensures err == None && count == 2
    ensures md[..] == [WireRecord(Ascii("proto"), b), WireRecord(Ascii("string"), Ascii("bar"))]
  {
    ProtoBelowString();
    md, count, err := AddTwoThenMaterialize(Ascii("string"), Ascii("bar"), Ascii("proto"), b);
  }

  /** The entries of ms with the values their objects hold. */
  ghost function Snapshot(ms: seq<(Bytes, SerializableModel)>): (es: Entries)
    reads set i | 0 <= i < |ms| :: ms[i].1
    ensures |es| == |ms|
    ensures forall i :: 0 <= i < |ms| ==> es[i] == (ms[i].0, ms[i].1.obj)
  {
    seq(|ms|, i requires 0 <= i < |ms| reads set j | 0 <= j < |ms| :: ms[j].1 => (ms[i].0, ms[i].1.obj))
  }

  /** Inserting an object into the entries inserts its value into their snapshot. */
  lemma SnapshotInsert(ms: seq<(Bytes, SerializableModel)>, k: Bytes, c: SerializableModel)
    ensures Snapshot(Insert(ms, k, c)) == Insert(Snapshot(ms), k, c.obj)
  {
    var es := Snapshot(ms);
    var ns := Insert(ms, k, c);
    assert Keys(es) == Keys(ms);
    forall i | 0 <= i < |ns|
      ensures Snapshot(ns)[i] == Insert(es, k, c.obj)[i]
    {
      InsertIndex(ms, k, c, i);
      InsertIndex(es, k, c.obj, i);
    }
  }

  /** Inserting an object keeps every held object within the footprint grown by it. */
  lemma InsertKeepsHeld<C>(ms: seq<(Bytes, C)>, k: Bytes, c: C, held: set<C>)
    requires forall i :: 0 <= i < |ms| ==> ms[i].1 in held
    ensures forall i :: 0 <= i < |Insert(ms, k, c)| ==> Insert(ms, k, c)[i].1 in held + {c}
  {
    forall i | 0 <= i < |Insert(ms, k, c)|
      ensures Insert(ms, k, c)[i].1 in held + {c}
    {
      InsertIndex(ms, k, c, i);
    }
  }

  /** Inserting an object not yet held keeps the held objects pairwise distinct. */
  lemma InsertKeepsDistinct<C>(ms: seq<(Bytes, C)>, k: Bytes, c: C)
    requires forall i, j :: 0 <= i < j < |ms| ==> ms[i].1 != ms[j].1
    requires forall i :: 0 <= i < |ms| ==> ms[i].1 != c
    ensures forall i, j :: 0 <= i < j < |Insert(ms, k, c)| ==> Insert(ms, k, c)[i].1 != Insert(ms, k, c)[j].1
  {
  }

  /** A write to the object handed out for key (the entry i a lookup of key resolves to)
      is what the next GetMetadata(key) returns; no other entry changes, and lookups of
      every other key return what they returned before. */
  twostate lemma MutationVisible(c: MetadataContainer, key: Bytes, i: nat)
    requires old(c.Valid()) && unchanged(c)
    requires FindLast(Keys(c.metadata), key) == Some(i)
    requires forall j :: 0 <= j < |c.metadata| && j != i ==> unchanged(c.metadata[j].1)
    ensures c.Valid()
    ensures c.Contents() == old(c.Contents())[i := (key, c.metadata[i].1.obj)]
    ensures c.GetMetadata(key, KindOf(c.metadata[i].1.obj)) == Found(c.metadata[i].1.obj)
    ensures forall q, kind :: q != key ==> c.GetMetadata(q, kind) == old(c.GetMetadata(q, kind))
  {
    var v := c.metadata[i].1.obj;
    var before := old(c.Contents());
    assert Keys(before) == Keys(c.metadata);
    assert c.Contents() == before[i := (key, v)];
    GetAfterSet(before, key, i, v, key, KindOf(v));
    forall q, kind | q != key
      ensures c.GetMetadata(q, kind) == old(c.GetMetadata(q, kind))
    {
      GetAfterSet(before, key, i, v, q, kind);
    }
  }
}
