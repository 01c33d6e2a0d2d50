/** What a whole record's bytes, columns and keys are (src/elk_programmer/model/records.py,
    src/elk_programmer/model/specs.py), field by field, at the offsets that the sizes of the fields give. */
module RecordLaws {
  import opened Bytes
  import opened Specs
  import opened Records
  import opened RecordTheorems
  import opened Columns
  import opened FieldLaws

  // ---- Offsets ----

  /** Field k takes the bytes from o[k] to o[k + 1]. */
  predicate Placed(fields: seq<Field>, o: seq<nat>) {
    && |o| == |fields| + 1
    && forall k | 0 <= k < |fields| :: o[k + 1] == o[k] + fields[k].Size()
  }

  predicate Offsets(fields: seq<Field>, o: seq<nat>) {
    Placed(fields, o) && o[0] == 0
  }

  lemma {:induction false} OffsetsFrom(fields: seq<Field>, start: nat) returns (o: seq<nat>)
    ensures Placed(fields, o) && o[0] == start
    decreases |fields|
  {
    o := [start];
    if fields != [] {
      var rest := OffsetsFrom(fields[1..], start + fields[0].Size());
      o := [start] + rest;
      forall k | 0 <= k < |fields| ensures o[k + 1] == o[k] + fields[k].Size() {
        if k > 0 { assert fields[1..][k - 1] == fields[k] && rest[k] == rest[k - 1] + fields[1..][k - 1].Size(); }
      }
    }
  }

  lemma PlacedTail(fields: seq<Field>, o: seq<nat>)
    requires Placed(fields, o) && fields != []
    ensures Placed(fields[1..], o[1..]) && o[1] == o[0] + fields[0].Size()
  {
    forall k | 0 <= k < |fields[1..]| ensures o[1..][k + 1] == o[1..][k] + fields[1..][k].Size() {
      assert o[k + 2] == o[k + 1] + fields[k + 1].Size();
    }
  }

  lemma {:induction false} PlacedSize(fields: seq<Field>, o: seq<nat>)
    requires Placed(fields, o)
    ensures o[|fields|] == o[0] + TotalSize(fields)
    decreases |fields|
  {
    if fields != [] {
      PlacedTail(fields, o);
      PlacedSize(fields[1..], o[1..]);
      assert o[1..][|fields| - 1] == o[|fields|];
    }
  }

  /** Within a run of bytes of the right size, each field has its place. */
  lemma {:induction false} PlaceFits(fields: seq<Field>, o: seq<nat>, k: nat)
    requires Placed(fields, o) && k < |fields|
    ensures o[0] <= o[k] && o[k + 1] == o[k] + fields[k].Size() <= o[|fields|]
    decreases |fields|
  {
    PlacedTail(fields, o);
    if k > 0 {
      PlaceFits(fields[1..], o[1..], k - 1);
      assert o[1..][k - 1] == o[k] && o[1..][k] == o[k + 1] && o[1..][|fields| - 1] == o[|fields|];
    } else {
      PlacedSize(fields[1..], o[1..]);
      assert o[1..][|fields| - 1] == o[|fields|];
    }
  }

  // ---- Decoding ----

  /** The record holds what the field's bytes mean, and for a text whether it is shown: the top bit of
      its first byte. */
  predicate FieldMeans(f: Field, chunk: seq<byte>, record: Record)
    requires f.Encodable() && |chunk| == f.Size()
  {
    && f.name in record && Means(f, chunk, record[f.name])
    && (f.kind == TEXT ==>
          f.name + "Show" in record && record[f.name + "Show"] == Flag(chunk[0] & 0x80 != 0))
  }

  /** The record holds what the bytes at the place of field k mean. */
  predicate MeansAt(fields: seq<Field>, o: seq<nat>, raw: seq<byte>, record: Record, k: nat)
    requires Placed(fields, o) && k < |fields|
  {
    && o[k] <= o[k + 1] <= |raw| && fields[k].Encodable()
    && FieldMeans(fields[k], raw[o[k]..o[k + 1]], record)
  }

  predicate RecordMeans(fields: seq<Field>, o: seq<nat>, raw: seq<byte>, record: Record)
    requires Placed(fields, o)
  {
    forall k | 0 <= k < |fields| :: MeansAt(fields, o, raw, record, k)
  }

  predicate KeyOf(f: Field, key: string) {
    key == f.name || (f.kind == TEXT && key == f.name + "Show")
  }

  lemma HeldMeans(f: Field, chunk: seq<byte>, record: Record)
    requires f.Encodable() && |chunk| == f.Size()
    requires f.name in record && record[f.name] == DecodeField(f, chunk)
    requires f.kind == TEXT ==> ShowKey(f) in record && record[ShowKey(f)] == Flag(ShowBit(f, chunk))
    ensures FieldMeans(f, chunk, record)
  {
    DecodeFieldIff(f, chunk, record[f.name]);
  }

  lemma CutAt<T>(s: seq<T>, a: nat, b: nat)
    requires a <= b <= |s|
    ensures s[a..][..b - a] == s[a..b] && s[a..][b - a..] == s[b..]
  {}

  lemma {:induction false} HoldsPlaced(fields: seq<Field>, o: seq<nat>, raw: seq<byte>, record: Record, k: nat)
    requires AllEncodable(fields) && Placed(fields, o) && o[0] + TotalSize(fields) == |raw| && k < |fields|
    requires Holds(fields, raw[o[0]..], record)
    ensures MeansAt(fields, o, raw, record, k)
    decreases |fields|
  {
    PlacedTail(fields, o);
    CutAt(raw, o[0], o[1]);
    if k == 0 {
      HeldMeans(fields[0], raw[o[0]..o[1]], record);
    } else {
      HoldsPlaced(fields[1..], o[1..], raw, record, k - 1);
      assert fields[1..][k - 1] == fields[k] && o[1..][k - 1] == o[k] && o[1..][k] == o[k + 1];
    }
  }

  lemma {:induction false} KeyHasField(fields: seq<Field>, key: string)
    requires key in Keys(fields)
    ensures exists f | f in fields :: KeyOf(f, key)
    decreases |fields|
  {
    if key in OwnKeys(fields[0]) {
      assert KeyOf(fields[0], key);
    } else {
      KeyHasField(fields[1..], key);
      var f :| f in fields[1..] && KeyOf(f, key);
      assert f in fields;
    }
  }

  lemma DecodedMeans(fields: seq<Field>, o: seq<nat>, raw: seq<byte>)
    requires AllEncodable(fields) && KeysDisjoint(fields) && Offsets(fields, o) && |raw| == TotalSize(fields)
    ensures RecordMeans(fields, o, raw, DecodeFrom(fields, raw, map[]))
    ensures forall key | key in DecodeFrom(fields, raw, map[]) :: exists f | f in fields :: KeyOf(f, key)
  {
    var record := DecodeFrom(fields, raw, map[]);
    DecodeHolds(fields, raw, map[]);
    assert raw[0..] == raw;
    forall k | 0 <= k < |fields| ensures MeansAt(fields, o, raw, record, k) {
      HoldsPlaced(fields, o, raw, record, k);
    }
    forall key | key in record ensures exists f | f in fields :: KeyOf(f, key) {
      if key !in Keys(fields) { DecodeKeepsOtherKeys(fields, raw, map[], key); }
      KeyHasField(fields, key);
    }
  }

  /** A record of another size than its fields' is refused; any other decodes to exactly what the bytes
      at each field's place mean, and to nothing else. */
  lemma DecodedRecord(spec: RecordSpec, o: seq<nat>, raw: seq<byte>)
    requires WellFormed(spec) && Offsets(spec.fields, o)
    ensures var n, r := o[|spec.fields|], DecodeRecord(spec, raw);
            if |raw| != n then r == None
            else r.Some? && RecordMeans(spec.fields, o, raw, r.value)
                 && forall key | key in r.value :: exists f | f in spec.fields :: KeyOf(f, key)
  {
    PlacedSize(spec.fields, o);
    if |raw| == spec.Size() { DecodedMeans(spec.fields, o, raw); }
  }

  // ---- Encoding ----

  /** A text is shown if its flag is stored and is not one of Python's false values. */
  predicate Shown(f: Field, record: Record) {
    && f.name + "Show" in record
    && record[f.name + "Show"] !in {Number(0), Text(""), Words([]), Raw([]), Flag(false)}
  }

  /** A field that the record lacks is written as blank: spaces for a text, and zeros. */
  predicate Blank(f: Field, show: bool, raw: seq<byte>) {
    forall i | 0 <= i < |raw| ::
      raw[i] == if f.kind != TEXT then 0 else if i == 0 && show then 0xA0 else 0x20
  }

  ghost predicate FieldWrites(f: Field, record: Record, raw: seq<byte>)
    requires f.name in record ==> Fits(f, record[f.name])
  {
    if f.name in record then Writes(f, record[f.name], Shown(f, record), raw) else Blank(f, Shown(f, record), raw)
  }

  lemma ShownIs(f: Field, record: Record)
    ensures Shown(f, record) <==> ShowKey(f) in record && Truthy(record[ShowKey(f)])
  {}

  lemma BlankText(b: byte, show: bool)
    requires (b & 0x7F) as int == 32 && (b & 0x80 != 0 <==> show)
    ensures b == if show then 0xA0 else 0x20
  {
    MasksTell(b, if show then 0xA0 else 0x20);
  }

  lemma ZeroByte(b: byte)
    requires b as int == 0
    ensures b == 0
  {
    SameByte(b, 0);
  }

  lemma BlankDigits(f: Field, raw: seq<byte>)
    requires f.kind == CODE || f.kind == DIGITS
    requires Writes(f, Text(""), false, raw)
    ensures Blank(f, false, raw)
  {
    forall i | 0 <= i < |raw| ensures raw[i] == 0 { ZeroByte(raw[i]); }
  }

  lemma BlankWords(f: Field, raw: seq<byte>)
    requires f.kind == VOICE && Writes(f, DefaultValue(f), false, raw)
    ensures Blank(f, false, raw)
  {
    forall i | 0 <= i < |raw| ensures raw[i] == 0 {
      var k := i / 2;
      assert 0 <= k < f.length && (i == 2 * k || i == 2 * k + 1);
      assert raw[2 * k] as int == 0 && raw[2 * k + 1] as int == 0;
      ZeroByte(raw[i]);
    }
  }

  lemma BlankNumber(f: Field, raw: seq<byte>)
    requires f.kind == U8 || f.kind == U16
    requires Writes(f, Number(0), false, raw)
    ensures Blank(f, false, raw)
  {
    forall i | 0 <= i < |raw| ensures raw[i] == 0 { ZeroByte(raw[i]); }
  }

  lemma BlankName(f: Field, show: bool, raw: seq<byte>)
    requires f.kind == TEXT && Writes(f, Text(""), show, raw)
    ensures Blank(f, show, raw)
  {
    forall i | 0 <= i < |raw| ensures raw[i] == if i == 0 && show then 0xA0 else 0x20 {
      BlankText(raw[i], i == 0 && show);
    }
  }

  lemma BlankBytes(f: Field, raw: seq<byte>)
    requires f.kind == Specs.BYTES && Writes(f, DefaultValue(f), false, raw)
    ensures Blank(f, false, raw)
  {}

  lemma DefaultIsBlank(f: Field, show: bool, raw: seq<byte>)
    requires f.Encodable() && Writes(f, DefaultValue(f), show, raw)
    ensures Blank(f, show, raw)
  {
    match f.kind
    case TEXT => BlankName(f, show, raw);
    case CODE => BlankDigits(f, raw);
    case DIGITS => BlankDigits(f, raw);
    case VOICE => BlankWords(f, raw);
    case BYTES => BlankBytes(f, raw);
    case _ => BlankNumber(f, raw);
  }

  lemma FieldBytesAre(f: Field, record: Record)
    requires f.Encodable() && (f.name in record ==> Fits(f, record[f.name]))
    ensures FieldWrites(f, record, FieldBytes(f, record))
  {
    var v := if f.name in record then record[f.name] else DefaultValue(f);
    ShownIs(f, record);
    EncodeFieldIff(f, v, Shown(f, record), FieldBytes(f, record));
    if f.name !in record { DefaultIsBlank(f, Shown(f, record), FieldBytes(f, record)); }
  }

  lemma EncodeStep(fields: seq<Field>, record: Record, out: seq<byte>, a: nat, b: nat)
    requires AllEncodable(fields) && WellTyped(fields, record) && fields != []
    requires b == a + fields[0].Size() && a <= |out| && out[a..] == EncodeFields(fields, record)
    ensures b <= |out| && out[a..b] == FieldBytes(fields[0], record) && out[b..] == EncodeFields(fields[1..], record)
  {
    var first, rest := FieldBytes(fields[0], record), EncodeFields(fields[1..], record);
    assert (first + rest)[..b - a] == first && (first + rest)[b - a..] == rest;
    CutAt(out, a, b);
  }

  /** Field k is written at its place. */
  ghost predicate WrittenAt(fields: seq<Field>, o: seq<nat>, record: Record, out: seq<byte>, k: nat)
    requires Placed(fields, o) && k < |fields|
  {
    && o[k] <= o[k + 1] <= |out|
    && (fields[k].name in record ==> Fits(fields[k], record[fields[k].name]))
    && FieldWrites(fields[k], record, out[o[k]..o[k + 1]])
  }

  lemma {:induction false} EncodedAt(fields: seq<Field>, o: seq<nat>, record: Record, out: seq<byte>, k: nat)
    requires AllEncodable(fields) && WellTyped(fields, record) && Placed(fields, o) && k < |fields|
    requires o[0] <= |out| && out[o[0]..] == EncodeFields(fields, record)
    ensures WrittenAt(fields, o, record, out, k)
    decreases |fields|
  {
    PlacedTail(fields, o);
    EncodeStep(fields, record, out, o[0], o[1]);
    if k == 0 {
      FieldBytesAre(fields[0], record);
    } else {
      EncodedAt(fields[1..], o[1..], record, out, k - 1);
      assert fields[1..][k - 1] == fields[k] && o[1..][k - 1] == o[k] && o[1..][k] == o[k + 1];
    }
  }

  /** Encoding gives, at each field's place, the bytes that the stored value is written as, or blank. */
  lemma EncodedRecord(spec: RecordSpec, o: seq<nat>, record: Record)
    requires AllEncodable(spec.fields) && WellTyped(spec.fields, record) && Offsets(spec.fields, o)
    ensures |EncodeRecord(spec, record)| == o[|spec.fields|]
    ensures forall k | 0 <= k < |spec.fields| :: WrittenAt(spec.fields, o, record, EncodeRecord(spec, record), k)
  {
    var out := EncodeRecord(spec, record);
    PlacedSize(spec.fields, o);
    assert out[0..] == out;
    forall k | 0 <= k < |spec.fields| ensures WrittenAt(spec.fields, o, record, out, k) {
      EncodedAt(spec.fields, o, record, out, k);
    }
  }

  lemma TypedCode(typed: string, raw: seq<byte>)
    requires typed == "3456" && raw == [6, 5, 4, 3, 0, 0]
    ensures DigitPositions(typed, [0, 1, 2, 3]) && CodeBytes(typed, [0, 1, 2, 3], raw)
  {
    forall j | 0 <= j < 4 ensures j in [0, 1, 2, 3] { assert [0, 1, 2, 3][j] == j; }
  }

  lemma CodeIs(f: Field, typed: string, p: seq<int>, raw: seq<byte>)
    requires f.kind == CODE && f.Encodable() && f.length == |raw|
    requires DigitPositions(typed, p) && CodeBytes(typed, p, raw)
    ensures EncodeField(f, Text(typed)) == raw
  {
    EncodeFieldIff(f, Text(typed), false, raw);
  }

  lemma ReadCode(f: Field, raw: seq<byte>, shown: string)
    requires f.kind == CODE && f.Encodable() && f.length == |raw|
    requires raw == [6, 5, 4, 3, 0, 0] && shown == "003456"
    ensures DecodeField(f, raw) == Text(shown)
  {
    forall k | 0 <= k < 6 ensures shown[k] as int == 48 + raw[5 - k] as int % 10 {}
    DecodeFieldIff(f, raw, Text(shown));
  }

  /** The user code that the repository's tests type: stored last digit first, filled with zeros, and
      read back with them. */
  lemma UserCode(f: Field, typed: string, raw: seq<byte>, shown: string)
    requires f.kind == CODE && f.length == 6
    requires typed == "3456" && raw == [6, 5, 4, 3, 0, 0] && shown == "003456"
    ensures EncodeField(f, Text(typed)) == raw && DecodeField(f, raw) == Text(shown)
  {
    TypedCode(typed, raw);
    CodeIs(f, typed, [0, 1, 2, 3], raw);
    ReadCode(f, raw, shown);
  }

  // ---- Columns ----

  function ValueOf(d: string): int {
    if d == "" then 0 else 10 * ValueOf(d[..|d| - 1]) + d[|d| - 1] as int - 48
  }

  /** The decimal numeral of n. */
  predicate Numeral(d: string, n: int) {
    && d != "" && (forall i | 0 <= i < |d| :: '0' <= d[i] <= '9') && (|d| > 1 ==> d[0] != '0')
    && ValueOf(d) == n
  }

  lemma {:induction false} DecimalIsNumeral(n: nat)
    ensures Numeral(Decimal(n), n)
  {
    var d := Decimal(n);
    if n >= 10 {
      DecimalIsNumeral(n / 10);
      assert d[..|d| - 1] == Decimal(n / 10);
      if n / 10 < 10 { assert d[0] == (n / 10 + 48) as char; }
    } else {
      assert d[..0] == "";
    }
  }

  ghost predicate NumberedName(c: string, name: string, n: int, suffix: string) {
    exists d | Numeral(d, n) :: c == name + d + suffix
  }

  /** The names of a field's columns: those given, or its name with H and L numbers, its name alone, or
      its name with numbers from one. */
  ghost predicate Named(f: Field, cols: seq<string>) {
    if f.columns != [] then cols == f.columns
    else if f.kind == VOICE then
      && |cols| == 2 * f.length
      && forall k | 0 <= k < |cols| :: NumberedName(cols[k], f.name, 1 + k / 2, if k % 2 == 0 then "H" else "L")
    else if f.length == 1 && (f.kind == U8 || f.kind == Specs.BYTES) then cols == [f.name]
    else |cols| == f.length && forall k | 0 <= k < |cols| :: NumberedName(cols[k], f.name, 1 + k, "")
  }

  lemma NameIs(c: string, name: string, n: nat, suffix: string)
    requires c == name + (Decimal(n) + suffix)
    ensures NumberedName(c, name, n, suffix)
  {
    DecimalIsNumeral(n);
    assert c == name + Decimal(n) + suffix;
  }

  lemma ColumnNamesAre(f: Field)
    ensures Named(f, f.ColumnNames())
  {
    var cols := f.ColumnNames();
    if f.columns != [] || (f.kind != VOICE && f.length == 1 && (f.kind == U8 || f.kind == Specs.BYTES)) {
    } else if f.kind == VOICE {
      forall k | 0 <= k < |cols|
        ensures NumberedName(cols[k], f.name, 1 + k / 2, if k % 2 == 0 then "H" else "L")
      {
        WordColumnAt(f.name, 1, f.length, k);
        NameIs(cols[k], f.name, 1 + k / 2, if k % 2 == 0 then "H" else "L");
      }
    } else {
      forall k | 0 <= k < |cols| ensures NumberedName(cols[k], f.name, 1 + k, "") {
        NumberedColumnAt(f.name, 1, f.length, k);
        assert Decimal(1 + k) + "" == Decimal(1 + k);
        NameIs(cols[k], f.name, 1 + k, "");
      }
    }
  }

  lemma ColumnsStep(fields: seq<Field>, cols: seq<string>, a: nat, b: nat)
    requires ColumnsMatch(fields) && fields != []
    requires b == a + fields[0].Size() && a <= |cols| && cols[a..] == AllColumns(fields)
    ensures b <= |cols| && cols[a..b] == fields[0].ColumnNames() && cols[b..] == AllColumns(fields[1..])
  {
    assert fields[0] in fields;
    var first, rest := fields[0].ColumnNames(), AllColumns(fields[1..]);
    assert (first + rest)[..b - a] == first && (first + rest)[b - a..] == rest;
    CutAt(cols, a, b);
  }

  lemma {:induction false} AllColumnsAt(fields: seq<Field>, o: seq<nat>, cols: seq<string>, k: nat)
    requires ColumnsMatch(fields) && Placed(fields, o) && k < |fields|
    requires o[0] <= |cols| && cols[o[0]..] == AllColumns(fields)
    ensures o[k] <= o[k + 1] <= |cols| && cols[o[k]..o[k + 1]] == fields[k].ColumnNames()
    decreases |fields|
  {
    PlacedTail(fields, o);
    ColumnsStep(fields, cols, o[0], o[1]);
    if k > 0 {
      AllColumnsAt(fields[1..], o[1..], cols, k - 1);
      assert fields[1..][k - 1] == fields[k] && o[1..][k - 1] == o[k] && o[1..][k] == o[k + 1];
    }
  }

  lemma {:induction false} ToColumnsAt(fields: seq<Field>, record: Record, row: Row, k: nat, i: nat)
    requires AllEncodable(fields) && ColumnsMatch(fields) && WellTyped(fields, record)
    requires Distinct(AllColumns(fields)) && k < |fields| && i < fields[k].Size()
    ensures i < |fields[k].ColumnNames()| && fields[k].Encodable()
    ensures fields[k].name in record ==> Fits(fields[k], record[fields[k].name])
    ensures var out, c := ToColumns(fields, record, row), fields[k].ColumnNames()[i];
            c in out && out[c] == FieldBytes(fields[k], record)[i] as int
    decreases |fields|
  {
    var f := fields[0];
    assert f in fields && fields[k] in fields;
    var cols, data := f.ColumnNames(), FieldBytes(f, record);
    DistinctParts(cols, AllColumns(fields[1..]));
    if k == 0 {
      WrittenColumn(cols, data, row, i);
      ToColumnsKeepsOthers(fields[1..], record, WriteColumns(cols, data, row), cols[i]);
    } else {
      assert fields[1..][k - 1] == fields[k];
      ToColumnsAt(fields[1..], record, WriteColumns(cols, data, row), k - 1, i);
    }
  }

  /** The row holds these bytes in these columns. */
  predicate InRow(row: Row, cols: seq<string>, raw: seq<byte>) {
    |raw| == |cols| && forall i | 0 <= i < |raw| :: cols[i] in row && row[cols[i]] == raw[i] as int
  }

  ghost predicate FieldInRow(f: Field, record: Record, row: Row)
    requires f.name in record ==> Fits(f, record[f.name])
  {
    exists raw | FieldWrites(f, record, raw) :: InRow(row, f.ColumnNames(), raw)
  }

  /** With distinct columns, the row holds in the columns of each field the values of the bytes that the
      field is written as, and it has no other columns. */
  lemma ExplodedRow(fields: seq<Field>, record: Record)
    requires AllEncodable(fields) && ColumnsMatch(fields) && WellTyped(fields, record)
    requires Distinct(AllColumns(fields))
    ensures forall f | f in fields :: FieldInRow(f, record, ToColumns(fields, record, map[]))
    ensures forall c | c in ToColumns(fields, record, map[]) :: c in AllColumns(fields)
  {
    var row := ToColumns(fields, record, map[]);
    forall k | 0 <= k < |fields|
      ensures fields[k].name in record ==> Fits(fields[k], record[fields[k].name])
      ensures FieldInRow(fields[k], record, row)
    {
      assert fields[k] in fields;
      var raw := FieldBytes(fields[k], record);
      FieldBytesAre(fields[k], record);
      forall i | 0 <= i < |raw| ensures var c := fields[k].ColumnNames()[i]; c in row && row[c] == raw[i] as int {
        ToColumnsAt(fields, record, map[], k, i);
      }
      assert InRow(row, fields[k].ColumnNames(), raw);
    }
    forall c | c in row ensures c in AllColumns(fields) {
      if c !in AllColumns(fields) { ToColumnsKeepsOthers(fields, record, map[], c); }
    }
  }

  /** The bytes that a row holds in these columns: its values modulo 256, and zero where it has none. */
  predicate FromRow(row: Row, cols: seq<string>, raw: seq<byte>) {
    && |raw| == |cols|
    && forall i | 0 <= i < |raw| :: raw[i] as int == (if cols[i] in row then row[cols[i]] else 0) % 256
  }

  lemma ReadIsFromRow(row: Row, all: seq<string>, a: nat, b: nat)
    requires a <= b <= |all|
    ensures FromRow(row, all[a..b], ReadColumns(all, row)[a..b])
  {
    forall i | a <= i < b
      ensures ReadColumns(all, row)[i] as int == (if all[i] in row then row[all[i]] else 0) % 256
    {
      LowByteIs(if all[i] in row then row[all[i]] else 0);
    }
  }

  predicate CellsAt(fields: seq<Field>, o: seq<nat>, row: Row, raw: seq<byte>, k: nat)
    requires Placed(fields, o) && k < |fields|
  {
    o[k] <= o[k + 1] <= |raw| && FromRow(row, fields[k].ColumnNames(), raw[o[k]..o[k + 1]])
  }

  /** A record read from a row holds for each field what the bytes in the field's columns mean. */
  lemma RowMeans(fields: seq<Field>, o: seq<nat>, row: Row) returns (raw: seq<byte>)
    requires AllEncodable(fields) && ColumnsMatch(fields) && KeysDisjoint(fields) && Offsets(fields, o)
    ensures RecordMeans(fields, o, raw, FromColumns(fields, row, map[]))
    ensures forall k | 0 <= k < |fields| :: CellsAt(fields, o, row, raw, k)
  {
    var all := AllColumns(fields);
    raw := ReadColumns(all, row);
    FromColumnsDecodes(fields, row, map[]);
    DecodedMeans(fields, o, raw);
    assert all[0..] == all;
    forall k | 0 <= k < |fields| ensures CellsAt(fields, o, row, raw, k) {
      AllColumnsAt(fields, o, all, k);
      ReadIsFromRow(row, all, o[k], o[k + 1]);
    }
  }
}
