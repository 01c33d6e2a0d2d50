/** The two serialisers of a record: wire bytes and per-byte database columns
    (`record_from_columns`, `record_to_columns` in src/elk_programmer/model/records.py). */
module Columns {
  import opened Bytes
  import opened Specs
  import opened Records
  import opened RecordTheorems

  type Row = map<string, int>

  /** `int(row.get(c) or 0) & 0xFF` for each column. */
  function ReadColumns(cols: seq<string>, row: Row): (r: seq<byte>)
    ensures |r| == |cols|
  {
    seq(|cols|, i requires 0 <= i < |cols| => LowByteOf(if cols[i] in row then row[cols[i]] else 0))
  }

  function WriteColumns(cols: seq<string>, data: seq<byte>, row: Row): Row
    requires |cols| == |data|
  {
    if cols == [] then row else WriteColumns(cols[1..], data[1..], row[cols[0] := ToInt(data[0])])
  }

  /** One column per byte, which the strict zip of the source insists on. */
  predicate ColumnsMatch(fields: seq<Field>) {
    forall f | f in fields :: |f.ColumnNames()| == f.Size()
  }

  function AllColumns(fields: seq<Field>): seq<string> {
    if fields == [] then [] else fields[0].ColumnNames() + AllColumns(fields[1..])
  }

  function FromColumns(fields: seq<Field>, row: Row, record: Record): Record
    requires AllEncodable(fields) && ColumnsMatch(fields)
    decreases |fields|
  {
    if fields == [] then record
    else
      var f := fields[0];
      FromColumns(fields[1..], row, StoreField(f, ReadColumns(f.ColumnNames(), row), record))
  }

  function ToColumns(fields: seq<Field>, record: Record, row: Row): Row
    requires AllEncodable(fields) && ColumnsMatch(fields) && WellTyped(fields, record)
    decreases |fields|
  {
    if fields == [] then row
    else
      var f := fields[0];
      ToColumns(fields[1..], record, WriteColumns(f.ColumnNames(), FieldBytes(f, record), row))
  }

  // ---- The loops ----

  method WriteField(cols: seq<string>, data: seq<byte>, before: Row) returns (row: Row)
    requires |cols| == |data|
    ensures row == WriteColumns(cols, data, before)
  {
    row := before;
    for i := 0 to |cols|
      invariant WriteColumns(cols[i..], data[i..], row) == WriteColumns(cols, data, before)
    {
      assert cols[i..][1..] == cols[i + 1..] && data[i..][1..] == data[i + 1..];
      row := row[cols[i] := ToInt(data[i])];
    }
  }

  /** The body of the loop below: encode one field and write its columns. */
  method ExplodeField(f: Field, record: Record, before: Row) returns (row: Row)
    requires f.Encodable() && (f.name in record ==> Fits(f, record[f.name])) && |f.ColumnNames()| == f.Size()
    ensures row == WriteColumns(f.ColumnNames(), FieldBytes(f, record), before)
  {
    var raw := EncodeOne(f, record);
    row := WriteField(f.ColumnNames(), raw, before);
  }

  /** `record_to_columns`. */
  method RecordToColumns(spec: RecordSpec, record: Record) returns (out: Row)
    requires AllEncodable(spec.AllFields()) && ColumnsMatch(spec.AllFields()) && WellTyped(spec.AllFields(), record)
    ensures out == ToColumns(spec.AllFields(), record, map[])
  {
    var fields := spec.AllFields();
    out := map[];
    for i := 0 to |fields|
      invariant ToColumns(fields[i..], record, out) == ToColumns(fields, record, map[])
    {
      FieldOfSpec(fields, i, record);
      var next := ExplodeField(fields[i], record, out);
      ToColumnsNext(fields, i, record, out, next);
      out := next;
    }
  }

  lemma FieldOfSpec(fields: seq<Field>, i: nat, record: Record)
    requires AllEncodable(fields) && ColumnsMatch(fields) && WellTyped(fields, record) && i < |fields|
    ensures fields[i].Encodable() && |fields[i].ColumnNames()| == fields[i].Size()
    ensures fields[i].name in record ==> Fits(fields[i], record[fields[i].name])
  {
    assert fields[i] in fields;
  }

  lemma ToColumnsNext(fields: seq<Field>, i: nat, record: Record, before: Row, after: Row)
    requires AllEncodable(fields) && ColumnsMatch(fields) && WellTyped(fields, record) && i < |fields|
    requires fields[i].Encodable() && (fields[i].name in record ==> Fits(fields[i], record[fields[i].name]))
    requires |fields[i].ColumnNames()| == fields[i].Size()
    requires after == WriteColumns(fields[i].ColumnNames(), FieldBytes(fields[i], record), before)
    ensures ToColumns(fields[i..], record, before) == ToColumns(fields[i + 1..], record, after)
  {
    var rest := fields[i..];
    assert rest[0] == fields[i] && rest[1..] == fields[i + 1..];
  }

  /** `record_from_columns`. */
  method RecordFromColumns(spec: RecordSpec, row: Row) returns (out: Record)
    requires AllEncodable(spec.AllFields()) && ColumnsMatch(spec.AllFields())
    ensures out == FromColumns(spec.AllFields(), row, map[])
  {
    var fields := spec.AllFields();
    out := map[];
    for i := 0 to |fields|
      invariant FromColumns(fields[i..], row, out) == FromColumns(fields, row, map[])
    {
      FieldOfSpec(fields, i, map[]);
      var next := StoreField(fields[i], ReadColumns(fields[i].ColumnNames(), row), out);
      FromColumnsNext(fields, i, row, out, next);
      out := next;
    }
  }

  lemma FromColumnsNext(fields: seq<Field>, i: nat, row: Row, before: Record, after: Record)
    requires AllEncodable(fields) && ColumnsMatch(fields) && i < |fields|
    requires fields[i].Encodable() && |fields[i].ColumnNames()| == fields[i].Size()
    requires after == StoreField(fields[i], ReadColumns(fields[i].ColumnNames(), row), before)
    ensures FromColumns(fields[i..], row, before) == FromColumns(fields[i + 1..], row, after)
  {
    var rest := fields[i..];
    assert rest[0] == fields[i] && rest[1..] == fields[i + 1..];
  }

  // ---- Columns of one field ----

  lemma {:induction false} WriteKeepsOthers(cols: seq<string>, data: seq<byte>, row: Row, c: string)
    requires |cols| == |data| && c !in cols
    ensures c in WriteColumns(cols, data, row) <==> c in row
    ensures c in row ==> WriteColumns(cols, data, row)[c] == row[c]
    decreases |cols|
  {
    if cols != [] { WriteKeepsOthers(cols[1..], data[1..], row[cols[0] := ToInt(data[0])], c); }
  }

  lemma {:induction false} WrittenColumn(cols: seq<string>, data: seq<byte>, row: Row, k: nat)
    requires |cols| == |data| && k < |cols| && Distinct(cols)
    ensures var out := WriteColumns(cols, data, row);
            cols[k] in out && out[cols[k]] == ToInt(data[k])
    decreases |cols|
  {
    var next := row[cols[0] := ToInt(data[0])];
    if k == 0 {
      assert cols[0] !in cols[1..];
      WriteKeepsOthers(cols[1..], data[1..], next, cols[0]);
    } else {
      WrittenColumn(cols[1..], data[1..], next, k - 1);
    }
  }

  lemma DistinctParts(a: seq<string>, b: seq<string>)
    requires Distinct(a + b)
    ensures Distinct(a) && Distinct(b)
    ensures forall c | c in a :: c !in b
  {
    forall i, k | 0 <= i < k < |a| ensures a[i] != a[k] { assert (a + b)[i] != (a + b)[k]; }
    forall i, k | 0 <= i < k < |b| ensures b[i] != b[k] { assert (a + b)[|a| + i] != (a + b)[|a| + k]; }
    forall i, k | 0 <= i < |a| && 0 <= k < |b| ensures a[i] != b[k] {
      assert (a + b)[i] != (a + b)[|a| + k];
    }
  }

  lemma {:induction false} ToColumnsKeepsOthers(fields: seq<Field>, record: Record, row: Row, c: string)
    requires AllEncodable(fields) && ColumnsMatch(fields) && WellTyped(fields, record) && c !in AllColumns(fields)
    ensures c in ToColumns(fields, record, row) <==> c in row
    ensures c in row ==> ToColumns(fields, record, row)[c] == row[c]
    decreases |fields|
  {
    if fields != [] {
      var f := fields[0];
      WriteKeepsOthers(f.ColumnNames(), FieldBytes(f, record), row, c);
      ToColumnsKeepsOthers(fields[1..], record, WriteColumns(f.ColumnNames(), FieldBytes(f, record), row), c);
    }
  }

  lemma ReadConcat(a: seq<string>, b: seq<string>, row: Row)
    ensures ReadColumns(a + b, row) == ReadColumns(a, row) + ReadColumns(b, row)
  {}

  /** The columns of the first field still hold its bytes after the later fields are written. */
  lemma FirstFieldReadBack(fields: seq<Field>, record: Record, row: Row)
    requires AllEncodable(fields) && ColumnsMatch(fields) && WellTyped(fields, record)
    requires fields != [] && Distinct(AllColumns(fields))
    ensures fields[0].Encodable() && (fields[0].name in record ==> Fits(fields[0], record[fields[0].name]))
    ensures ReadColumns(fields[0].ColumnNames(), ToColumns(fields, record, row)) == FieldBytes(fields[0], record)
  {
    var f, rest := fields[0], fields[1..];
    assert f in fields;
    var cols, data := f.ColumnNames(), FieldBytes(f, record);
    var written := WriteColumns(cols, data, row);
    DistinctParts(cols, AllColumns(rest));
    forall k | 0 <= k < |cols|
      ensures ReadColumns(cols, ToColumns(fields, record, row))[k] == data[k]
    {
      WrittenColumn(cols, data, row, k);
      ToColumnsKeepsOthers(rest, record, written, cols[k]);
      LowByteOfByte(data[k]);
    }
  }

  // ---- The serialisers agree ----

  lemma PartsWellTyped(a: seq<Field>, b: seq<Field>, record: Record)
    requires AllEncodable(a + b) && WellTyped(a + b, record)
    ensures AllEncodable(a) && WellTyped(a, record)
  {
    assert forall f | f in a :: f in a + b;
  }

  /** With distinct columns, reading back the columns of the first fields in field and column
      order gives exactly the encoder's bytes, although the row carries `more` fields too. */
  lemma {:induction false} ColumnsCarryEncoding(fields: seq<Field>, more: seq<Field>, record: Record, row: Row)
    requires AllEncodable(fields + more) && ColumnsMatch(fields + more) && WellTyped(fields + more, record)
    requires AllEncodable(fields) && WellTyped(fields, record)
    requires Distinct(AllColumns(fields + more))
    ensures ReadColumns(AllColumns(fields), ToColumns(fields + more, record, row)) == EncodeFields(fields, record)
    decreases |fields|
  {
    if fields != [] {
      var f, rest := fields[0], fields[1..];
      var all := fields + more;
      assert all[0] == f && all[1..] == rest + more;
      FirstFieldReadBack(all, record, row);
      DistinctParts(f.ColumnNames(), AllColumns(rest + more));
      ReadConcat(f.ColumnNames(), AllColumns(rest), ToColumns(all, record, row));
      ColumnsCarryEncoding(rest, more, record, WriteColumns(f.ColumnNames(), FieldBytes(f, record), row));
    }
  }

  /** Reading a record from columns is decoding the bytes those columns hold. */
  lemma {:induction false} FromColumnsDecodes(fields: seq<Field>, row: Row, record: Record)
    requires AllEncodable(fields) && ColumnsMatch(fields)
    ensures |AllColumns(fields)| == TotalSize(fields)
    ensures FromColumns(fields, row, record) == DecodeFrom(fields, ReadColumns(AllColumns(fields), row), record)
    decreases |fields|
  {
    if fields != [] {
      var f, rest := fields[0], fields[1..];
      assert f in fields;
      var cols := f.ColumnNames();
      ReadConcat(cols, AllColumns(rest), row);
      FromColumnsDecodes(rest, row, StoreField(f, ReadColumns(cols, row), record));
      var all := ReadColumns(AllColumns(fields), row);
      assert all[..f.Size()] == ReadColumns(cols, row) && all[f.Size()..] == ReadColumns(AllColumns(rest), row);
    }
  }

  /** The wire encoding of a record is what its own columns hold in the exploded row, although
      the row also carries the fields that never travel on the wire. */
  lemma WireBytesInRow(spec: RecordSpec, record: Record)
    requires AllEncodable(spec.AllFields()) && ColumnsMatch(spec.AllFields()) && WellTyped(spec.AllFields(), record)
    requires Distinct(AllColumns(spec.AllFields()))
    ensures AllEncodable(spec.fields) && WellTyped(spec.fields, record)
    ensures ReadColumns(AllColumns(spec.fields), ToColumns(spec.AllFields(), record, map[])) ==
            EncodeRecord(spec, record)
  {
    PartsWellTyped(spec.fields, spec.extra, record);
    ColumnsCarryEncoding(spec.fields, spec.extra, record, map[]);
  }

  /** Exploding a record into columns and reading it back is decoding its encoding. */
  lemma ColumnsRoundTrip(spec: RecordSpec, record: Record)
    requires AllEncodable(spec.AllFields()) && ColumnsMatch(spec.AllFields()) && WellTyped(spec.AllFields(), record)
    requires Distinct(AllColumns(spec.AllFields()))
    ensures FromColumns(spec.AllFields(), ToColumns(spec.AllFields(), record, map[]), map[]) ==
            DecodeFrom(spec.AllFields(), EncodeFields(spec.AllFields(), record), map[])
  {
    var fields := spec.AllFields();
    assert fields + [] == fields;
    ColumnsCarryEncoding(fields, [], record, map[]);
    FromColumnsDecodes(fields, ToColumns(fields, record, map[]), map[]);
  }
}
