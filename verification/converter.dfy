/** The generic document converter: a record is written to the document
    store without its `id` (the id is the document's key, not part of its
    data) and read back with the document key attached as `id`. */
module Converter {

  /** A stored field value. */
  datatype Value =
    | Null
    | Bool(b: bool)
    | Number(n: int)
    | Text(s: string)
    | Timestamp(millis: int)

  /** A record or a document's data, keyed by field name. */
  type Document = map<string, Value>

  /** The field that carries the document key on the application side. */
  const IdField := "id"

  /** `toFirestore`: the record with its `id` field removed. */
  function ToFirestore(data: Document): (r: Document)
    ensures IdField !in r
    ensures forall k :: k in data && k != IdField ==> k in r && r[k] == data[k]
    ensures forall k :: k in r ==> k in data
  {
    data - {IdField}
  }

  /** `fromFirestore`: the stored fields together with the document key as
      `id`. The stored fields are copied after the key, so a stored `id`
      field wins over it. */
  function FromFirestore(snapshotId: string, data: Document): (r: Document)
    ensures forall k :: k in data ==> k in r && r[k] == data[k]
    ensures IdField in r
    ensures IdField !in data ==> r[IdField] == Text(snapshotId)
    ensures forall k :: k in r ==> k in data || k == IdField
  {
    map[IdField := Text(snapshotId)] + data
  }

  /** Writing a record under its own id and reading it back gives the
      record. */
  lemma {:induction false} WriteThenRead(x: Document, docId: string)
    requires IdField in x && x[IdField] == Text(docId)
    ensures FromFirestore(docId, ToFirestore(x)) == x
  {
    var r := FromFirestore(docId, ToFirestore(x));
    assert r.Keys == x.Keys;
    forall k | k in x ensures r[k] == x[k] {
      if k == IdField {
        assert IdField !in ToFirestore(x);
      }
    }
  }

  /** Reading a document and writing the record back stores the same data,
      except that a stored `id` field is dropped. */
  lemma {:induction false} ReadThenWrite(snapshotId: string, data: Document)
    ensures ToFirestore(FromFirestore(snapshotId, data)) == data - {IdField}
    ensures IdField !in data ==> ToFirestore(FromFirestore(snapshotId, data)) == data
  {
    var r := ToFirestore(FromFirestore(snapshotId, data));
    assert r.Keys == data.Keys - {IdField};
    if IdField !in data {
      assert data - {IdField} == data;
    }
  }
}
