/** The agreement of the two serialisers rests on distinct column names: with one name used twice
    there is always a record for which they disagree. */
module ColumnsAgree {
  import opened Bytes
  import opened Specs
  import opened Records
  import opened RecordTheorems
  import opened Columns

  /** A byte every field can hold anywhere, and one that differs from it whatever the fields. */
  function Blank(f: Field): byte { if f.kind == TEXT then 0x20 else 0 }

  function Mark(f: Field): byte { if f.kind == TEXT then 0x41 else 1 }

  function MarkedField(f: Field, p: int): (r: seq<byte>)
    ensures |r| == f.Size()
    ensures forall i | 0 <= i < |r| :: r[i] == if i == p then Mark(f) else Blank(f)
  {
    seq(f.Size(), i requires 0 <= i < f.Size() => if i == p then Mark(f) else Blank(f))
  }

  /** The bytes of a record that is blank but for byte p. */
  function Marked(fields: seq<Field>, p: int): (r: seq<byte>)
    ensures |r| == TotalSize(fields)
  {
    if fields == [] then [] else MarkedField(fields[0], p) + Marked(fields[1..], p - fields[0].Size())
  }

  lemma {:induction false} MarkedAt(fields: seq<Field>, p: int, i: nat)
    requires i < TotalSize(fields)
    ensures i == p ==> Marked(fields, p)[i] == 1 || Marked(fields, p)[i] == 0x41
    ensures i != p ==> Marked(fields, p)[i] == 0 || Marked(fields, p)[i] == 0x20
    decreases |fields|
  {
    var n := fields[0].Size();
    if i < n {
      assert Marked(fields, p)[i] == MarkedField(fields[0], p)[i];
    } else {
      MarkedAt(fields[1..], p - n, i - n);
      assert Marked(fields, p)[i] == Marked(fields[1..], p - n)[i - n];
    }
  }

  lemma SmallBytes()
    ensures ToInt(0) == 0 && ToInt(1) == 1
    ensures (0x20 as byte) & 0x80 == 0 && (0x20 as byte) & 0x7F == 0x20
    ensures (0x41 as byte) & 0x80 == 0 && (0x41 as byte) & 0x7F == 0x41
  {
    Ends();
    Successor(0);
  }

  lemma MarkedFieldNormal(f: Field, p: int)
    ensures IsNormalField(f, MarkedField(f, p))
  {
    SmallBytes();
    var raw := MarkedField(f, p);
    assert forall i | 0 <= i < |raw| :: raw[i] == Mark(f) || raw[i] == Blank(f);
  }

  lemma {:induction false} MarkedNormal(fields: seq<Field>, p: int)
    ensures IsNormal(fields, Marked(fields, p))
    decreases |fields|
  {
    if fields != [] {
      var n := fields[0].Size();
      var first, rest := MarkedField(fields[0], p), Marked(fields[1..], p - n);
      MarkedFieldNormal(fields[0], p);
      MarkedNormal(fields[1..], p - n);
      assert (first + rest)[..n] == first && (first + rest)[n..] == rest;
    }
  }

  /** Some record encodes to those bytes. */
  lemma MarkedEncodes(fields: seq<Field>, p: int) returns (record: Record)
    requires AllEncodable(fields) && KeysDisjoint(fields)
    ensures WellTyped(fields, record) && EncodeFields(fields, record) == Marked(fields, p)
  {
    var raw := Marked(fields, p);
    record := DecodeFrom(fields, raw, map[]);
    DecodeHolds(fields, raw, map[]);
    EncodeHolding(fields, raw, record);
    MarkedNormal(fields, p);
    NormalFixedPoints(fields, raw);
  }

  lemma {:induction false} AllColumnsSize(fields: seq<Field>)
    requires ColumnsMatch(fields)
    ensures |AllColumns(fields)| == TotalSize(fields)
  {
    if fields != [] {
      assert fields[0] in fields;
      AllColumnsSize(fields[1..]);
    }
  }

  /** The row agrees with the encoder on a record. */
  predicate Agrees(fields: seq<Field>, record: Record)
    requires AllEncodable(fields) && ColumnsMatch(fields) && WellTyped(fields, record)
  {
    ReadColumns(AllColumns(fields), ToColumns(fields, record, map[])) == EncodeFields(fields, record)
  }

  /** One column holds one value, so two bytes that differ cannot share it. */
  lemma ClashDisagrees(fields: seq<Field>, p: nat, q: nat) returns (record: Record)
    requires AllEncodable(fields) && ColumnsMatch(fields) && KeysDisjoint(fields)
    requires p < q < |AllColumns(fields)| && AllColumns(fields)[p] == AllColumns(fields)[q]
    ensures WellTyped(fields, record) && !Agrees(fields, record)
  {
    AllColumnsSize(fields);
    record := MarkedEncodes(fields, p);
    MarkedAt(fields, p, p);
    MarkedAt(fields, p, q);
    var bytes := ReadColumns(AllColumns(fields), ToColumns(fields, record, map[]));
    assert bytes[p] == bytes[q];
  }

  /** For fields that share no key and have one column per byte: the columns of every record, read
      in field and column order, are its encoding if and only if no column name is used twice. */
  lemma ColumnsAgreeIff(fields: seq<Field>)
    requires AllEncodable(fields) && ColumnsMatch(fields) && KeysDisjoint(fields)
    ensures (forall record: Record | WellTyped(fields, record) :: Agrees(fields, record)) <==>
            Distinct(AllColumns(fields))
  {
    var cols := AllColumns(fields);
    if Distinct(cols) {
      forall record: Record | WellTyped(fields, record) ensures Agrees(fields, record) {
        assert fields + [] == fields;
        ColumnsCarryEncoding(fields, [], record, map[]);
      }
    } else {
      var p, q :| 0 <= p < q < |cols| && cols[p] == cols[q];
      var record := ClashDisagrees(fields, p, q);
    }
  }
}
