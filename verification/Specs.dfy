/** Record specifications: the ordered fields of one EEPROM record
    (src/elk_programmer/model/specs.py, the parts the codec depends on). */
module Specs {

  datatype FieldKind = U8 | TEXT | VOICE | DIGITS | CODE | BYTES | U16

  /** `columns` is empty when the names are derived from `name`. */
  datatype Field = Field(name: string, kind: FieldKind, length: nat, columns: seq<string>)
  {
    function Size(): nat {
      match kind
      case VOICE => 2 * length
      case U16 => 2
      case _ => length
    }

    /** What the codec needs of a field: single-byte numbers, and text and codes that are not empty. */
    predicate Encodable() {
      && (kind == U8 ==> length == 1)
      && (kind == TEXT || kind == CODE ==> length >= 1)
    }

    function ColumnNames(): seq<string> {
      if columns != [] then columns
      else if kind == VOICE then WordColumns(name, 1, length)
      else if length == 1 && (kind == U8 || kind == BYTES) then [name]
      else NumberedColumns(name, 1, length)
    }
  }

  datatype RecordSpec = RecordSpec(name: string, count: nat, first: int, fields: seq<Field>, extra: seq<Field>)
  {
    function Size(): nat { TotalSize(fields) }

    function AllFields(): seq<Field> { fields + extra }
  }

  function TotalSize(fields: seq<Field>): nat {
    if fields == [] then 0 else fields[0].Size() + TotalSize(fields[1..])
  }

  function Decimal(n: nat): string {
    if n < 10 then [(n + 48) as char] else Decimal(n / 10) + [(n % 10 + 48) as char]
  }

  function NumberedColumns(name: string, from: nat, count: nat): (r: seq<string>)
    ensures |r| == count
    decreases count
  {
    if count == 0 then [] else [name + Decimal(from)] + NumberedColumns(name, from + 1, count - 1)
  }

  function WordColumns(name: string, from: nat, count: nat): (r: seq<string>)
    ensures |r| == 2 * count
    decreases count
  {
    if count == 0 then []
    else [name + Decimal(from) + "H", name + Decimal(from) + "L"] + WordColumns(name, from + 1, count - 1)
  }

  /** Derived names give one column per byte, except for a U16 that is not declared two long:
      such a field must name its columns. */
  lemma DerivedColumnCount(f: Field)
    requires f.columns == []
    ensures |f.ColumnNames()| == f.Size() <==> f.kind != U16 || f.length == 2
  {}

  // ---- Derived names are distinct ----

  lemma {:induction false} DecimalInjective(m: nat, n: nat)
    requires Decimal(m) == Decimal(n)
    ensures m == n
    decreases m
  {
    DecimalLength(m);
    DecimalLength(n);
    var a, b := Decimal(m), Decimal(n);
    assert a[|a| - 1] == b[|b| - 1];
    if m >= 10 {
      if n < 10 { assert false; }
      assert a[..|a| - 1] == Decimal(m / 10) && b[..|b| - 1] == Decimal(n / 10);
      DecimalInjective(m / 10, n / 10);
    } else if n >= 10 {
      assert false;
    }
  }

  lemma DecimalLength(n: nat)
    ensures |Decimal(n)| >= 1
    ensures n >= 10 ==> |Decimal(n)| >= 2
  {
    if n >= 10 { DecimalLength(n / 10); }
  }

  lemma {:induction false} NumberedColumnAt(name: string, from: nat, count: nat, k: nat)
    requires k < count
    ensures NumberedColumns(name, from, count)[k] == name + Decimal(from + k)
    decreases count
  {
    if k > 0 { NumberedColumnAt(name, from + 1, count - 1, k - 1); }
  }

  lemma SameStem(name: string, a: string, b: string)
    requires name + a == name + b
    ensures a == b
  {
    assert (name + a)[|name|..] == a && (name + b)[|name|..] == b;
  }

  predicate Distinct<T(==)>(s: seq<T>) {
    forall i, k | 0 <= i < k < |s| :: s[i] != s[k]
  }

  lemma {:induction false} WordColumnAt(name: string, from: nat, count: nat, k: nat)
    requires k < 2 * count
    ensures WordColumns(name, from, count)[k] == name + (Decimal(from + k / 2) + if k % 2 == 0 then "H" else "L")
    decreases count
  {
    assert name + Decimal(from) + "H" == name + (Decimal(from) + "H");
    assert name + Decimal(from) + "L" == name + (Decimal(from) + "L");
    if k >= 2 { WordColumnAt(name, from + 1, count - 1, k - 2); }
  }

  lemma SameSuffixed(a: string, c: char, b: string, d: char)
    requires a + [c] == b + [d]
    ensures a == b && c == d
  {
    assert (a + [c])[|a|] == c && (b + [d])[|b|] == d;
    assert (a + [c])[..|a|] == a && (b + [d])[..|b|] == b;
  }

  /** So are the names of the two bytes of every word of a voice field. */
  lemma WordColumnsDistinct(name: string, from: nat, count: nat)
    ensures Distinct(WordColumns(name, from, count))
  {
    var s := WordColumns(name, from, count);
    forall i, k | 0 <= i < k < |s| ensures s[i] != s[k] {
      WordColumnAt(name, from, count, i);
      WordColumnAt(name, from, count, k);
      if s[i] == s[k] {
        var a, b := Decimal(from + i / 2), Decimal(from + k / 2);
        SameStem(name, a + (if i % 2 == 0 then "H" else "L"), b + (if k % 2 == 0 then "H" else "L"));
        SameSuffixed(a, if i % 2 == 0 then 'H' else 'L', b, if k % 2 == 0 then 'H' else 'L');
        DecimalInjective(from + i / 2, from + k / 2);
      }
    }
  }

  /** Hence all derived names of one field are distinct. */
  lemma DerivedColumnsDistinct(f: Field)
    requires f.columns == []
    ensures Distinct(f.ColumnNames())
  {
    WordColumnsDistinct(f.name, 1, f.length);
    NumberedColumnsDistinct(f.name, 1, f.length);
  }

  lemma NumberedColumnsDistinct(name: string, from: nat, count: nat)
    ensures Distinct(NumberedColumns(name, from, count))
  {
    var s := NumberedColumns(name, from, count);
    forall i, k | 0 <= i < k < |s| ensures s[i] != s[k] {
      NumberedColumnAt(name, from, count, i);
      NumberedColumnAt(name, from, count, k);
      if s[i] == s[k] {
        SameStem(name, Decimal(from + i), Decimal(from + k));
        DecimalInjective(from + i, from + k);
      }
    }
  }
}
