/** One entry of the record catalogue, the keypad, with its derived, explicit and two-byte columns:
    what the codec and column theorems ask of a record specification holds of it. */
module Catalogue {
  import opened Bytes
  import opened Specs
  import opened Records
  import opened RecordTheorems
  import opened Columns

  // ---- Names that tell their field ----

  /** The column names of a field are distinct, and from each of them and each of its record keys the
      function finds the field's position. */
  predicate Told(f: Field, owner: string -> int, k: int) {
    && Distinct(f.ColumnNames())
    && (forall i | 0 <= i < |f.ColumnNames()| :: owner(f.ColumnNames()[i]) == k)
    && forall key | key in OwnKeys(f) :: owner(key) == k
  }

  predicate AllTold(fields: seq<Field>, owner: string -> int, from: int) {
    forall k | 0 <= k < |fields| :: Told(fields[k], owner, from + k)
  }

  lemma ToldFirst(fields: seq<Field>, owner: string -> int, from: int)
    requires AllTold(fields, owner, from) && fields != []
    ensures Told(fields[0], owner, from) && AllTold(fields[1..], owner, from + 1)
  {
    assert Told(fields[0], owner, from + 0);
    forall k | 0 <= k < |fields[1..]| ensures Told(fields[1..][k], owner, from + 1 + k) {
      assert Told(fields[k + 1], owner, from + (k + 1));
    }
  }

  lemma ToldConcat(a: seq<Field>, b: seq<Field>, owner: string -> int, from: int)
    requires AllTold(a, owner, from) && AllTold(b, owner, from + |a|)
    ensures AllTold(a + b, owner, from)
  {
    forall k | 0 <= k < |a + b| ensures Told((a + b)[k], owner, from + k) {
      if k >= |a| { assert Told(b[k - |a|], owner, from + |a| + (k - |a|)); }
    }
  }

  lemma ToldOne(f: Field, owner: string -> int, k: int)
    requires Told(f, owner, k)
    ensures AllTold([f], owner, k)
  {}

  lemma {:induction false} OwnerFrom(fields: seq<Field>, owner: string -> int, from: int)
    requires AllTold(fields, owner, from)
    ensures forall i | 0 <= i < |AllColumns(fields)| :: owner(AllColumns(fields)[i]) >= from
    ensures forall key | key in Keys(fields) :: owner(key) >= from
    decreases |fields|
  {
    if fields != [] {
      ToldFirst(fields, owner, from);
      OwnerFrom(fields[1..], owner, from + 1);
    }
  }

  lemma DistinctJoin(a: seq<string>, b: seq<string>, owner: string -> int, k: int)
    requires Distinct(a) && Distinct(b)
    requires forall i | 0 <= i < |a| :: owner(a[i]) == k
    requires forall i | 0 <= i < |b| :: owner(b[i]) > k
    ensures Distinct(a + b)
  {}

  /** If every name tells its field, no column name is used twice and no key is shared. */
  lemma {:induction false} NamesDistinct(fields: seq<Field>, owner: string -> int, from: int)
    requires AllTold(fields, owner, from)
    ensures Distinct(AllColumns(fields)) && KeysDisjoint(fields)
    decreases |fields|
  {
    if fields != [] {
      ToldFirst(fields, owner, from);
      OwnerFrom(fields[1..], owner, from + 1);
      NamesDistinct(fields[1..], owner, from + 1);
      DistinctJoin(fields[0].ColumnNames(), AllColumns(fields[1..]), owner, from);
    }
  }

  // ---- The keypad ----

  function Flags(names: seq<string>): (r: seq<Field>)
    ensures |r| == |names|
  {
    seq(|names|, i requires 0 <= i < |names| => Field(names[i], U8, 1, []))
  }

  function Tasks(names: seq<string>): (r: seq<Field>)
    ensures |r| == |names|
  {
    seq(|names|, i requires 0 <= i < |names| => Field(names[i], U16, 1, [names[i] + "H", names[i] + "L"]))
  }

  const NAME := Field("KeypadName", TEXT, 16, [])
  const NOT_USED := Field("NotUsed", Specs.BYTES, 3, ["NotUsed1", "NotUsed2", "NotUsed3"])
  const AREA_AND_FLAGS: seq<string> := ["KeypadAreas", "KPFlags1", "KPFlags2", "KPFlags3", "KPFlags4", "KPFlags5"]
  const KEY_FLAGS: seq<string> := ["KeyLEDState", "KPFlags6", "KPFlags7"]
  const TASKS: seq<string> := ["KeyF1Def", "KeyF2Def", "KeyF3Def", "KeyF4Def", "KeyF5Def", "KeyF6Def"]
  const LIGHTS: seq<string> :=
    ["KeyF1LiteDef", "KeyF2LiteDef", "KeyF3LiteDef", "KeyF4LiteDef", "KeyF5LiteDef", "KeyF6LiteDef"]

  function Wire(): seq<Field> { Flags(AREA_AND_FLAGS) + [NAME] + Flags(KEY_FLAGS) + [NOT_USED] }

  function Extra(): seq<Field> { Tasks(TASKS) + Tasks(LIGHTS) + Flags(["KPVerHW"]) }

  function Keypad(): RecordSpec { RecordSpec("keypad", 16, 1, Wire(), Extra()) }

  function Digit(c: char): int { c as int - 48 }

  /** The position of the field that a keypad name belongs to, from its first eight characters. */
  function Owner(name: string): int {
    if |name| < 7 then -1
    else if name[0] == 'N' then 10
    else if name[1] == 'P' then
      if name[2] == 'V' then 23
      else if |name| < 8 then -1
      else if Digit(name[7]) <= 5 then Digit(name[7]) else Digit(name[7]) + 2
    else if name[3] == 'p' then if name[6] == 'A' then 0 else 6
    else if name[3] == 'L' then 7
    else if name[5] == 'D' then 10 + Digit(name[4]) else 16 + Digit(name[4])
  }

  lemma FlagsTold(names: seq<string>, from: int)
    requires forall i | 0 <= i < |names| :: Owner(names[i]) == from + i
    ensures AllTold(Flags(names), Owner, from)
  {}

  lemma TaskTold(name: string, k: int)
    requires |name| >= 8 && Owner(name) == k
    ensures Told(Field(name, U16, 1, [name + "H", name + "L"]), Owner, k)
  {
    assert (name + "H")[|name|] != (name + "L")[|name|];
  }

  lemma TasksTold(names: seq<string>, from: int)
    requires forall i | 0 <= i < |names| :: |names[i]| >= 8 && Owner(names[i]) == from + i
    ensures AllTold(Tasks(names), Owner, from)
  {
    forall i | 0 <= i < |names| ensures Told(Tasks(names)[i], Owner, from + i) { TaskTold(names[i], from + i); }
  }

  lemma NameTold()
    ensures Told(NAME, Owner, 6)
  {
    forall i | 0 <= i < 16 ensures Owner(NAME.ColumnNames()[i]) == 6 { NumberedColumnAt("KeypadName", 1, 16, i); }
    NumberedColumnsDistinct("KeypadName", 1, 16);
  }

  lemma NotUsedTold()
    ensures Told(NOT_USED, Owner, 10)
  {
    assert NOT_USED.columns[0][7] == '1' && NOT_USED.columns[1][7] == '2' && NOT_USED.columns[2][7] == '3';
  }

  lemma FlagBytesTold()
    ensures AllTold(Flags(AREA_AND_FLAGS), Owner, 0) && AllTold(Flags(KEY_FLAGS), Owner, 7)
  {
    FlagsTold(AREA_AND_FLAGS, 0);
    FlagsTold(KEY_FLAGS, 7);
  }

  lemma TaskBytesTold()
    ensures AllTold(Tasks(TASKS), Owner, 11) && AllTold(Tasks(LIGHTS), Owner, 17)
    ensures AllTold(Flags(["KPVerHW"]), Owner, 23)
  {
    TasksTold(TASKS, 11);
    TasksTold(LIGHTS, 17);
    FlagsTold(["KPVerHW"], 23);
  }

  lemma WireTold()
    ensures AllTold(Wire(), Owner, 0)
  {
    FlagBytesTold();
    NameTold();
    NotUsedTold();
    ToldOne(NAME, Owner, 6);
    ToldOne(NOT_USED, Owner, 10);
    ToldConcat(Flags(AREA_AND_FLAGS), [NAME], Owner, 0);
    ToldConcat(Flags(AREA_AND_FLAGS) + [NAME], Flags(KEY_FLAGS), Owner, 0);
    ToldConcat(Flags(AREA_AND_FLAGS) + [NAME] + Flags(KEY_FLAGS), [NOT_USED], Owner, 0);
  }

  lemma ExtraTold()
    ensures AllTold(Extra(), Owner, 11)
  {
    TaskBytesTold();
    ToldConcat(Tasks(TASKS), Tasks(LIGHTS), Owner, 11);
    ToldConcat(Tasks(TASKS) + Tasks(LIGHTS), Flags(["KPVerHW"]), Owner, 11);
  }

  /** What the codec needs of every field, and one column for each of its bytes. */
  predicate Sound(f: Field) {
    f.Encodable() && |f.ColumnNames()| == f.Size()
  }

  lemma PartsSound(f: Field)
    requires f in Keypad().AllFields()
    ensures Sound(f)
  {
    assert Sound(NAME) && Sound(NOT_USED);
    if f !in [NAME] && f !in [NOT_USED] {
      assert f in Flags(AREA_AND_FLAGS) + Flags(KEY_FLAGS) + Flags(["KPVerHW"]) || f in Tasks(TASKS) + Tasks(LIGHTS);
    }
  }

  lemma {:induction false} SizeOfConcat(a: seq<Field>, b: seq<Field>)
    ensures TotalSize(a + b) == TotalSize(a) + TotalSize(b)
  {
    if a == [] {
      assert a + b == b;
    } else {
      assert (a + b)[1..] == a[1..] + b;
      SizeOfConcat(a[1..], b);
    }
  }

  lemma {:induction false} SizeOfFlags(names: seq<string>)
    ensures TotalSize(Flags(names)) == |names|
  {
    if names != [] {
      assert Flags(names)[1..] == Flags(names[1..]);
      SizeOfFlags(names[1..]);
    }
  }

  lemma SizeOfOne(f: Field)
    ensures TotalSize([f]) == f.Size()
  {
    assert [f][1..] == [];
  }

  lemma KeypadSize()
    ensures Keypad().Size() == 28
  {
    SizeOfConcat(Flags(AREA_AND_FLAGS) + [NAME] + Flags(KEY_FLAGS), [NOT_USED]);
    SizeOfConcat(Flags(AREA_AND_FLAGS) + [NAME], Flags(KEY_FLAGS));
    SizeOfConcat(Flags(AREA_AND_FLAGS), [NAME]);
    SizeOfFlags(AREA_AND_FLAGS);
    SizeOfFlags(KEY_FLAGS);
    SizeOfOne(NAME);
    SizeOfOne(NOT_USED);
  }

  lemma KeypadNames()
    ensures KeysDisjoint(Wire()) && KeysDisjoint(Wire() + Extra()) && Distinct(AllColumns(Wire() + Extra()))
  {
    WireTold();
    ExtraTold();
    WireLength();
    ToldConcat(Wire(), Extra(), Owner, 0);
    NamesDistinct(Wire(), Owner, 0);
    NamesDistinct(Wire() + Extra(), Owner, 0);
  }

  lemma WireLength()
    ensures |Wire()| == 11
  {}

  lemma KeypadFields()
    ensures AllEncodable(Keypad().AllFields()) && ColumnsMatch(Keypad().AllFields()) && AllEncodable(Keypad().fields)
  {
    forall f | f in Keypad().AllFields() ensures Sound(f) { PartsSound(f); }
    forall f | f in Keypad().fields ensures Sound(f) { PartsSound(f); }
  }

  /** The keypad record is one that the codec and column theorems are about: twenty-eight bytes on the
      wire, encodable fields, no shared key, one column per byte and no column name used twice. */
  lemma KeypadIsWellFormed()
    ensures WellFormed(Keypad()) && Keypad().Size() == 28
    ensures AllEncodable(Keypad().AllFields()) && ColumnsMatch(Keypad().AllFields())
    ensures KeysDisjoint(Keypad().AllFields()) && Distinct(AllColumns(Keypad().AllFields()))
  {
    KeypadSize();
    KeypadFields();
    KeypadNames();
  }

  /** So every keypad record keeps its bytes through the database, and every keypad image its meaning
      through the codec. */
  lemma KeypadRoundTrips(record: Record, raw: seq<byte>)
    requires WellTyped(Keypad().AllFields(), record) && |raw| == 28
    ensures WellFormed(Keypad()) && |raw| == Keypad().Size()
    ensures AllEncodable(Keypad().AllFields()) && ColumnsMatch(Keypad().AllFields())
    ensures ReadColumns(AllColumns(Keypad().fields), ToColumns(Keypad().AllFields(), record, map[])) ==
            EncodeFields(Keypad().fields, record)
    ensures DecodeRecord(Keypad(), Normalised(Keypad(), raw)) == DecodeRecord(Keypad(), raw)
  {
    KeypadIsWellFormed();
    WireBytesInRow(Keypad(), record);
    RecordNormalForm(Keypad(), raw);
  }
}
