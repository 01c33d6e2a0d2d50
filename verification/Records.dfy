/** Decoding and encoding of records (src/elk_programmer/model/records.py). */
module Records {
  import opened Bytes
  import opened Specs

  /** Editor values. Digit fields are texts; `Flag` is a text field's show-on-keypad bit. */
  datatype Value = Number(n: int) | Text(s: string) | Words(ws: seq<int>) | Raw(b: seq<byte>) | Flag(on: bool)

  type Record = map<string, Value>

  // ---- Text ----

  function LowChar(b: byte): char { ToInt(b & 0x7F) as char }

  function LowChars(raw: seq<byte>): (r: string)
    ensures |r| == |raw|
  {
    seq(|raw|, i requires 0 <= i < |raw| => LowChar(raw[i]))
  }

  predicate IsPadding(c: char) { c == ' ' || c == '\0' }

  /** `rstrip(" \x00")`. */
  function RStrip(s: string): (r: string)
    ensures r <= s
  {
    if s != "" && IsPadding(s[|s| - 1]) then RStrip(s[..|s| - 1]) else s
  }

  function BytesToText(raw: seq<byte>): string { RStrip(LowChars(raw)) }

  /** ASCII encoding with replacement. */
  function AsciiByte(c: char): byte {
    if c as int < 128 then FromInt(c as int) else 0x3F
  }

  function TextToBytes(text: string, length: nat): (r: seq<byte>)
    ensures |r| == length
  {
    seq(length, i requires 0 <= i < length => if i < |text| then AsciiByte(text[i]) else 0x20)
  }

  // ---- Digits ----

  function DigitChar(d: int): char
    requires 0 <= d < 10
  {
    (48 + d) as char
  }

  function DigitText(raw: seq<byte>): (r: string)
    ensures |r| == |raw|
  {
    seq(|raw|, i requires 0 <= i < |raw| => DigitChar(ToInt(raw[i]) % 10))
  }

  /** The digits among the characters of a text. */
  function ParseDigits(text: string): (r: seq<int>)
    ensures forall i | 0 <= i < |r| :: 0 <= r[i] < 10
  {
    if text == "" then []
    else if '0' <= text[0] <= '9' then [text[0] as int - 48] + ParseDigits(text[1..])
    else ParseDigits(text[1..])
  }

  function Reversed<T>(s: seq<T>): (r: seq<T>)
    ensures |r| == |s|
  {
    seq(|s|, i requires 0 <= i < |s| => s[|s| - 1 - i])
  }

  function DigitBytes(digits: seq<int>): (r: seq<byte>)
    requires forall i | 0 <= i < |digits| :: 0 <= digits[i] < 10
    ensures |r| == |digits|
  {
    seq(|digits|, i requires 0 <= i < |digits| => FromInt(digits[i]))
  }

  /** The last `length` digits, zero-filled at the front. */
  function LastDigits(digits: seq<int>, length: nat): (r: seq<int>)
    ensures |r| == length
    ensures (forall i | 0 <= i < |digits| :: 0 <= digits[i] < 10) ==> forall i | 0 <= i < |r| :: 0 <= r[i] < 10
  {
    if |digits| >= length then digits[|digits| - length..]
    else seq(length - |digits|, _ => 0) + digits
  }

  /** The first `length` digits, zero-filled at the back. */
  function FirstDigits(digits: seq<int>, length: nat): (r: seq<int>)
    ensures |r| == length
    ensures (forall i | 0 <= i < |digits| :: 0 <= digits[i] < 10) ==> forall i | 0 <= i < |r| :: 0 <= r[i] < 10
  {
    if |digits| >= length then digits[..length]
    else digits + seq(length - |digits|, _ => 0)
  }

  // ---- Words ----

  function WordOf(hi: byte, lo: byte): int { ToInt(hi) * 256 + ToInt(lo) }

  function WordBytes(w: int): seq<byte> { [LowByteOf(w / 256), LowByteOf(w)] }

  function DecodeWords(raw: seq<byte>): (r: seq<int>)
    requires |raw| % 2 == 0
    ensures |r| == |raw| / 2
  {
    if raw == [] then [] else [WordOf(raw[0], raw[1])] + DecodeWords(raw[2..])
  }

  function EncodeWords(ws: seq<int>, length: nat): (r: seq<byte>)
    ensures |r| == 2 * length
    decreases length
  {
    if length == 0 then []
    else WordBytes(if ws == [] then 0 else ws[0]) + EncodeWords(if ws == [] then [] else ws[1..], length - 1)
  }

  // ---- Fields ----

  /** A value of the type a field's kind stores. */
  predicate Fits(f: Field, v: Value) {
    match f.kind
    case U8 => v.Number?
    case U16 => v.Number?
    case TEXT => v.Text?
    case CODE => v.Text?
    case DIGITS => v.Text?
    case VOICE => v.Words?
    case BYTES => v.Raw?
  }

  function DecodeField(f: Field, raw: seq<byte>): (v: Value)
    requires f.Encodable() && |raw| == f.Size()
    ensures Fits(f, v)
  {
    match f.kind
    case U8 => Number(ToInt(raw[0]))
    case U16 => Number(WordOf(raw[0], raw[1]))
    case TEXT => Text(BytesToText(raw))
    case CODE => Text(DigitText(Reversed(raw)))
    case DIGITS => Text(DigitText(raw))
    case VOICE => Words(DecodeWords(raw))
    case BYTES => Raw(raw)
  }

  function EncodeField(f: Field, v: Value): (r: seq<byte>)
    requires f.Encodable() && Fits(f, v)
    ensures |r| == f.Size()
  {
    match f.kind
    case U8 => [LowByteOf(v.n)]
    case U16 => WordBytes(v.n)
    case TEXT => TextToBytes(v.s, f.length)
    case CODE => Reversed(DigitBytes(LastDigits(ParseDigits(v.s), f.length)))
    case DIGITS => DigitBytes(FirstDigits(ParseDigits(v.s), f.length))
    case VOICE => EncodeWords(v.ws, f.length)
    case BYTES => seq(f.length, i requires 0 <= i < f.length => if i < |v.b| then v.b[i] else 0)
  }

  function DefaultValue(f: Field): (v: Value)
    ensures Fits(f, v)
  {
    match f.kind
    case U8 => Number(0)
    case U16 => Number(0)
    case TEXT => Text("")
    case CODE => Text("")
    case DIGITS => Text("")
    case VOICE => Words(seq(f.length, _ => 0))
    case BYTES => Raw(seq(f.length, _ => 0))
  }

  /** The show-on-keypad flag of a text field: bit 7 of its first byte. */
  function ShowBit(f: Field, raw: seq<byte>): bool
    requires f.Encodable() && |raw| == f.Size()
  {
    f.kind == TEXT && raw[0] & 0x80 != 0
  }

  function WithShow(f: Field, raw: seq<byte>, show: bool): (r: seq<byte>)
    requires f.Encodable() && |raw| == f.Size()
    ensures |r| == |raw|
  {
    if f.kind == TEXT && show then [raw[0] | 0x80] + raw[1..] else raw
  }

  // ---- Records ----

  const SHOW_SUFFIX := "Show"

  function ShowKey(f: Field): string { f.name + SHOW_SUFFIX }

  /** Python truth of a stored value. */
  predicate Truthy(v: Value) {
    match v
    case Number(n) => n != 0
    case Text(s) => s != ""
    case Words(ws) => ws != []
    case Raw(b) => b != []
    case Flag(on) => on
  }

  predicate AllEncodable(fields: seq<Field>) {
    forall f | f in fields :: f.Encodable()
  }

  /** Stored values have the type of their field. */
  predicate WellTyped(fields: seq<Field>, record: Record) {
    forall f | f in fields :: f.name in record ==> Fits(f, record[f.name])
  }

  function StoreField(f: Field, chunk: seq<byte>, record: Record): Record
    requires f.Encodable() && |chunk| == f.Size()
  {
    var stored := record[f.name := DecodeField(f, chunk)];
    if f.kind == TEXT then stored[ShowKey(f) := Flag(ShowBit(f, chunk))] else stored
  }

  function DecodeFrom(fields: seq<Field>, raw: seq<byte>, record: Record): Record
    requires AllEncodable(fields) && |raw| == TotalSize(fields)
    decreases |fields|
  {
    if fields == [] then record
    else
      var n := fields[0].Size();
      DecodeFrom(fields[1..], raw[n..], StoreField(fields[0], raw[..n], record))
  }

  /** `decode_record`; None is the ValueError on a wrong size. */
  function DecodeRecord(spec: RecordSpec, raw: seq<byte>): Option<Record>
    requires AllEncodable(spec.fields)
  {
    if |raw| == spec.Size() then Some(DecodeFrom(spec.fields, raw, map[])) else None
  }

  function FieldBytes(f: Field, record: Record): (r: seq<byte>)
    requires f.Encodable() && (f.name in record ==> Fits(f, record[f.name]))
    ensures |r| == f.Size()
  {
    var v := if f.name in record then record[f.name] else DefaultValue(f);
    WithShow(f, EncodeField(f, v), ShowKey(f) in record && Truthy(record[ShowKey(f)]))
  }

  function EncodeFields(fields: seq<Field>, record: Record): (r: seq<byte>)
    requires AllEncodable(fields) && WellTyped(fields, record)
    ensures |r| == TotalSize(fields)
  {
    if fields == [] then [] else FieldBytes(fields[0], record) + EncodeFields(fields[1..], record)
  }

  function EncodeRecord(spec: RecordSpec, record: Record): (r: seq<byte>)
    requires AllEncodable(spec.fields) && WellTyped(spec.fields, record)
    ensures |r| == spec.Size()
  {
    EncodeFields(spec.fields, record)
  }

  // ---- The loops ----

  /** What is left to decode, from `pos` with the fields from i on, gives `all`. */
  ghost predicate StillDecodes(fields: seq<Field>, i: nat, raw: seq<byte>, pos: nat, record: Record, all: Record) {
    && AllEncodable(fields) && i <= |fields| && pos + TotalSize(fields[i..]) == |raw|
    && DecodeFrom(fields[i..], raw[pos..], record) == all
  }

  lemma DecodeNext(fields: seq<Field>, i: nat, raw: seq<byte>, pos: nat, record: Record, all: Record)
    requires StillDecodes(fields, i, raw, pos, record, all) && i < |fields|
    ensures fields[i].Encodable() && pos + fields[i].Size() <= |raw|
    ensures StillDecodes(fields, i + 1, raw, pos + fields[i].Size(),
                         StoreField(fields[i], raw[pos..pos + fields[i].Size()], record), all)
  {
    var rest, n := fields[i..], fields[i].Size();
    assert rest[0] == fields[i] && rest[1..] == fields[i + 1..];
    assert raw[pos..][..n] == raw[pos..pos + n] && raw[pos..][n..] == raw[pos + n..];
  }

  lemma DecodeEnds(fields: seq<Field>, raw: seq<byte>)
    requires AllEncodable(fields) && |raw| == TotalSize(fields)
    ensures StillDecodes(fields, 0, raw, 0, map[], DecodeFrom(fields, raw, map[]))
  {
    assert fields[0..] == fields && raw[0..] == raw;
  }

  /** `decode_record`. */
  method DecodeRecordLoop(spec: RecordSpec, raw: seq<byte>) returns (out: Option<Record>)
    requires AllEncodable(spec.fields)
    ensures out == DecodeRecord(spec, raw)
  {
    var fields := spec.fields;
    if |raw| != spec.Size() {
      return None;
    }
    var record: Record := map[];
    var pos: nat := 0;
    ghost var all := DecodeFrom(fields, raw, map[]);
    DecodeEnds(fields, raw);
    for i := 0 to |fields|
      invariant StillDecodes(fields, i, raw, pos, record, all)
    {
      record, pos := DecodeOne(fields, i, raw, pos, record, all);
    }
    return Some(record);
  }

  /** The body of that loop. */
  method DecodeOne(fields: seq<Field>, i: nat, raw: seq<byte>, pos: nat, record: Record, ghost all: Record)
    returns (stored: Record, next: nat)
    requires StillDecodes(fields, i, raw, pos, record, all) && i < |fields|
    ensures StillDecodes(fields, i + 1, raw, next, stored, all)
  {
    var f := fields[i];
    DecodeNext(fields, i, raw, pos, record, all);
    var chunk := raw[pos..pos + f.Size()];
    stored := record[f.name := DecodeField(f, chunk)];
    if f.kind == TEXT {
      stored := stored[f.name + SHOW_SUFFIX := Flag(chunk[0] & 0x80 != 0)];
    }
    next := pos + f.Size();
  }

  lemma EncodeNext(fields: seq<Field>, i: nat, record: Record, out: seq<byte>)
    requires AllEncodable(fields) && WellTyped(fields, record) && i < |fields|
    ensures fields[i].Encodable() && (fields[i].name in record ==> Fits(fields[i], record[fields[i].name]))
    ensures out + EncodeFields(fields[i..], record) ==
            out + FieldBytes(fields[i], record) + EncodeFields(fields[i + 1..], record)
  {
    var rest := fields[i..];
    assert rest[0] == fields[i] && rest[1..] == fields[i + 1..];
  }

  /** `encode_record`. */
  method EncodeRecordLoop(spec: RecordSpec, record: Record) returns (out: seq<byte>)
    requires AllEncodable(spec.fields) && WellTyped(spec.fields, record)
    ensures out == EncodeRecord(spec, record)
  {
    var fields := spec.fields;
    out := [];
    for i := 0 to |fields|
      invariant out + EncodeFields(fields[i..], record) == EncodeFields(fields, record)
    {
      EncodeNext(fields, i, record, out);
      var raw := EncodeOne(fields[i], record);
      out := out + raw;
    }
  }

  /** The body of that loop. */
  method EncodeOne(f: Field, record: Record) returns (raw: seq<byte>)
    requires f.Encodable() && (f.name in record ==> Fits(f, record[f.name]))
    ensures raw == FieldBytes(f, record)
  {
    var value := if f.name in record then record[f.name] else DefaultValue(f);
    raw := EncodeField(f, value);
    if f.kind == TEXT && f.name + SHOW_SUFFIX in record && Truthy(record[f.name + SHOW_SUFFIX]) {
      raw := [raw[0] | 0x80] + raw[1..];
    }
  }
}
