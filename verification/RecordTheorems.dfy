/** Encoding after decoding is a projection: the normal form of a record, and exactly which
    records are already in it. */
module RecordTheorems {
  import opened Bytes
  import opened Specs
  import opened Records

  // ---- One field ----

  /** The bytes a field comes back as after decoding and encoding. */
  function NormalField(f: Field, raw: seq<byte>): (r: seq<byte>)
    requires f.Encodable() && |raw| == f.Size()
    ensures |r| == f.Size()
  {
    WithShow(f, EncodeField(f, DecodeField(f, raw)), ShowBit(f, raw))
  }

  /** Code and digit bytes are decimal digits; text bytes after the first have bit 7 clear,
      and a NUL is always followed by a character that is neither NUL nor space. */
  predicate IsNormalField(f: Field, raw: seq<byte>)
    requires |raw| == f.Size()
  {
    match f.kind
    case CODE => forall i | 0 <= i < |raw| :: ToInt(raw[i]) <= 9
    case DIGITS => forall i | 0 <= i < |raw| :: ToInt(raw[i]) <= 9
    case TEXT =>
      && (forall i | 1 <= i < |raw| :: raw[i] & 0x80 == 0)
      && (forall i | 0 <= i < |raw| && raw[i] & 0x7F == 0 ::
            exists k :: i < k < |raw| && raw[k] & 0x7F != 0 && raw[k] & 0x7F != 0x20)
    case _ => true
  }

  // ---- Text ----

  lemma AsciiOfLow(b: byte)
    ensures AsciiByte(LowChar(b)) == b & 0x7F
    ensures LowChar(b) as int < 128
  {
    LowIsSmall(b);
    FromToInt(b & 0x7F);
  }

  lemma LowIsSmall(b: byte)
    ensures ToInt(b & 0x7F) < 128
  {
    assert b & 0x7F < 0x80;
  }

  lemma LowCharIs(b: byte)
    ensures LowChar(b) == ' ' <==> b & 0x7F == 0x20
    ensures LowChar(b) == '\0' <==> b & 0x7F == 0
  {
    LowIsSmall(b);
    FromToInt(b & 0x7F);
    FromToInt(0x20);
    FromToInt(0);
    Ends();
    assert ToInt(0x20) == 32;
  }

  /** What `rstrip` leaves: no padding at the end, and only padding taken away. */
  lemma {:induction false} RStripFacts(s: string)
    ensures var t := RStrip(s);
            && (t != "" ==> !IsPadding(t[|t| - 1]))
            && forall i | |t| <= i < |s| :: IsPadding(s[i])
    decreases |s|
  {
    if s != "" && IsPadding(s[|s| - 1]) { RStripFacts(s[..|s| - 1]); }
  }

  /** Those two facts determine what is left. */
  lemma {:induction false} RStripUnique(s: string, n: nat)
    requires n <= |s|
    requires n > 0 ==> !IsPadding(s[n - 1])
    requires forall i | n <= i < |s| :: IsPadding(s[i])
    ensures RStrip(s) == s[..n]
    decreases |s|
  {
    if n < |s| {
      RStripUnique(s[..|s| - 1], n);
      assert s[..|s| - 1][..n] == s[..n];
    } else {
      assert s[..n] == s;
    }
  }

  /** Byte i of a text field in normal form, before the show flag is put back. */
  lemma TextByte(raw: seq<byte>, i: nat)
    requires i < |raw|
    ensures TextToBytes(BytesToText(raw), |raw|)[i] ==
            if i < |BytesToText(raw)| then raw[i] & 0x7F else 0x20
  {
    AsciiOfLow(raw[i]);
  }

  lemma TextStripAgain(raw: seq<byte>, out: seq<byte>)
    requires |out| == |raw|
    requires forall i | 0 <= i < |raw| ::
      out[i] & 0x7F == if i < |BytesToText(raw)| then raw[i] & 0x7F else 0x20
    ensures BytesToText(out) == BytesToText(raw)
  {
    var n := |BytesToText(raw)|;
    RStripFacts(LowChars(raw));
    forall i | 0 <= i < |raw| ensures LowChars(out)[i] == if i < n then LowChars(raw)[i] else ' ' {
      LowCharIs(out[i]);
    }
    RStripUnique(LowChars(out), n);
    assert LowChars(out)[..n] == LowChars(raw)[..n];
  }

  lemma MaskFacts(b: byte)
    ensures (b & 0x7F) & 0x7F == b & 0x7F && (b & 0x7F) & 0x80 == 0
    ensures ((b & 0x7F) | 0x80) & 0x7F == b & 0x7F && ((b & 0x7F) | 0x80) & 0x80 == 0x80
    ensures b & 0x80 == 0 ==> b & 0x7F == b
    ensures b & 0x80 != 0 ==> (b & 0x7F) | 0x80 == b
    ensures b & 0x80 == 0 || b & 0x80 == 0x80
  {}

  /** Byte i of a text field in normal form. */
  lemma TextNormalByte(f: Field, raw: seq<byte>, i: nat)
    requires f.kind == TEXT && f.Encodable() && |raw| == f.Size() && i < |raw|
    ensures var low := if i < |BytesToText(raw)| then raw[i] & 0x7F else 0x20;
            NormalField(f, raw)[i] == if i == 0 && ShowBit(f, raw) then low | 0x80 else low
  {
    TextByte(raw, i);
  }

  lemma SpaceMasks()
    ensures (0x20 as byte) & 0x7F == 0x20 && ((0x20 as byte) | 0x80) & 0x7F == 0x20
    ensures (0x20 as byte) & 0x80 == 0 && ((0x20 as byte) | 0x80) & 0x80 == 0x80
  {}

  lemma TextDecodesSame(f: Field, raw: seq<byte>)
    requires f.kind == TEXT && f.Encodable() && |raw| == f.Size()
    ensures DecodeField(f, NormalField(f, raw)) == DecodeField(f, raw)
    ensures ShowBit(f, NormalField(f, raw)) == ShowBit(f, raw)
  {
    var out := NormalField(f, raw);
    SpaceMasks();
    forall i | 0 <= i < |raw|
      ensures out[i] & 0x7F == if i < |BytesToText(raw)| then raw[i] & 0x7F else 0x20
      ensures i == 0 ==> (out[i] & 0x80 != 0 <==> ShowBit(f, raw))
    {
      TextNormalByte(f, raw, i);
      MaskFacts(raw[i]);
    }
    TextStripAgain(raw, out);
  }

  /** Where the text ends: a position is in the stripped tail exactly when only padding
      follows from there on. */
  lemma TextEnd(raw: seq<byte>, i: nat)
    requires i < |raw|
    ensures i >= |BytesToText(raw)| <==>
            forall k | i <= k < |raw| :: raw[k] & 0x7F == 0 || raw[k] & 0x7F == 0x20
  {
    var n := |BytesToText(raw)|;
    RStripFacts(LowChars(raw));
    if i < n {
      LowCharIs(raw[n - 1]);
      assert LowChars(raw)[n - 1] == LowChar(raw[n - 1]);
    } else {
      forall k | i <= k < |raw| ensures raw[k] & 0x7F == 0 || raw[k] & 0x7F == 0x20 {
        LowCharIs(raw[k]);
        assert IsPadding(LowChars(raw)[k]);
      }
    }
  }

  lemma TextByteFixed(f: Field, raw: seq<byte>, i: nat)
    requires f.kind == TEXT && f.Encodable() && |raw| == f.Size() && i < |raw|
    ensures NormalField(f, raw)[i] == raw[i] <==>
            (i > 0 ==> raw[i] & 0x80 == 0) && (i >= |BytesToText(raw)| ==> raw[i] & 0x7F == 0x20)
  {
    TextNormalByte(f, raw, i);
    MaskFacts(raw[i]);
    SpaceMasks();
  }

  lemma FixedTextIsNormal(f: Field, raw: seq<byte>)
    requires f.kind == TEXT && f.Encodable() && |raw| == f.Size()
    requires NormalField(f, raw) == raw
    ensures IsNormalField(f, raw)
  {
    forall i | 0 <= i < |raw|
      ensures i > 0 ==> raw[i] & 0x80 == 0
    {
      TextByteFixed(f, raw, i);
    }
    forall i | 0 <= i < |raw| && raw[i] & 0x7F == 0
      ensures exists k :: i < k < |raw| && raw[k] & 0x7F != 0 && raw[k] & 0x7F != 0x20
    {
      TextByteFixed(f, raw, i);
      TextEnd(raw, i);
    }
  }

  lemma NormalTextIsFixed(f: Field, raw: seq<byte>)
    requires f.kind == TEXT && f.Encodable() && |raw| == f.Size()
    requires IsNormalField(f, raw)
    ensures NormalField(f, raw) == raw
  {
    forall i | 0 <= i < |raw| ensures NormalField(f, raw)[i] == raw[i] {
      TextEnd(raw, i);
      TextByteFixed(f, raw, i);
    }
  }

  lemma TextFixed(f: Field, raw: seq<byte>)
    requires f.kind == TEXT && f.Encodable() && |raw| == f.Size()
    ensures NormalField(f, raw) == raw <==> IsNormalField(f, raw)
  {
    if NormalField(f, raw) == raw { FixedTextIsNormal(f, raw); }
    if IsNormalField(f, raw) { NormalTextIsFixed(f, raw); }
  }

  // ---- Digits ----

  lemma DigitCharIsDigit(d: int)
    requires 0 <= d < 10
    ensures '0' <= DigitChar(d) <= '9' && DigitChar(d) as int - 48 == d
  {}

  lemma {:induction false} ParseDigitText(raw: seq<byte>)
    ensures |ParseDigits(DigitText(raw))| == |raw|
    ensures forall i | 0 <= i < |raw| :: ParseDigits(DigitText(raw))[i] == ToInt(raw[i]) % 10
  {
    if raw != [] {
      DigitCharIsDigit(ToInt(raw[0]) % 10);
      assert DigitText(raw)[1..] == DigitText(raw[1..]);
      ParseDigitText(raw[1..]);
    }
  }

  lemma AllDigitsKept(digits: seq<int>)
    ensures FirstDigits(digits, |digits|) == digits && LastDigits(digits, |digits|) == digits
  {}

  /** Every byte reduced modulo ten. */
  function DigitsOnly(raw: seq<byte>): (r: seq<byte>)
    ensures |r| == |raw|
  {
    seq(|raw|, i requires 0 <= i < |raw| => FromInt(ToInt(raw[i]) % 10))
  }

  lemma DigitBytesOfText(raw: seq<byte>)
    ensures DigitBytes(ParseDigits(DigitText(raw))) == DigitsOnly(raw)
    ensures |ParseDigits(DigitText(raw))| == |raw|
  {
    ParseDigitText(raw);
  }

  lemma ReversedTwice(raw: seq<byte>)
    ensures Reversed(DigitsOnly(Reversed(raw))) == DigitsOnly(raw)
  {}

  /** A digit field comes back with every byte reduced modulo ten; so does a code field,
      though it is typed in reverse. */
  lemma DigitFieldNormal(f: Field, raw: seq<byte>)
    requires (f.kind == DIGITS || f.kind == CODE) && f.Encodable() && |raw| == f.Size()
    ensures NormalField(f, raw) == DigitsOnly(raw)
  {
    if f.kind == DIGITS {
      DigitBytesOfText(raw);
      AllDigitsKept(ParseDigits(DigitText(raw)));
    } else {
      var back := Reversed(raw);
      DigitBytesOfText(back);
      AllDigitsKept(ParseDigits(DigitText(back)));
      ReversedTwice(raw);
    }
  }

  lemma DigitByteFixed(b: byte)
    ensures FromInt(ToInt(b) % 10) == b <==> ToInt(b) <= 9
    ensures ToInt(FromInt(ToInt(b) % 10)) == ToInt(b) % 10
  {
    IntFromTo(ToInt(b) % 10);
    FromToInt(b);
  }

  lemma SameDigitText(a: seq<byte>, b: seq<byte>)
    requires |a| == |b| && forall i | 0 <= i < |a| :: ToInt(a[i]) % 10 == ToInt(b[i]) % 10
    ensures DigitText(a) == DigitText(b) && DigitText(Reversed(a)) == DigitText(Reversed(b))
  {}

  lemma DigitsNormal(f: Field, raw: seq<byte>)
    requires (f.kind == DIGITS || f.kind == CODE) && f.Encodable() && |raw| == f.Size()
    ensures DecodeField(f, NormalField(f, raw)) == DecodeField(f, raw)
    ensures NormalField(f, raw) == raw <==> IsNormalField(f, raw)
  {
    var out := NormalField(f, raw);
    DigitFieldNormal(f, raw);
    forall i | 0 <= i < |raw|
      ensures ToInt(out[i]) % 10 == ToInt(raw[i]) % 10
      ensures out[i] == raw[i] <==> ToInt(raw[i]) <= 9
    {
      DigitByteFixed(raw[i]);
    }
    SameDigitText(out, raw);
  }

  // ---- Numbers ----

  lemma WordRoundTrip(hi: byte, lo: byte)
    ensures WordBytes(WordOf(hi, lo)) == [hi, lo]
  {
    var w := WordOf(hi, lo);
    assert w / 256 == ToInt(hi) && w % 256 == ToInt(lo);
    LowByteOfByte(hi);
    FromToInt(lo);
  }

  lemma {:induction false} EncodeWordAt(ws: seq<int>, k: nat)
    requires k < |ws|
    ensures EncodeWords(ws, |ws|)[2 * k] == LowByteOf(ws[k] / 256)
    ensures EncodeWords(ws, |ws|)[2 * k + 1] == LowByteOf(ws[k])
    decreases k
  {
    if k > 0 { EncodeWordAt(ws[1..], k - 1); }
  }

  lemma {:induction false} DecodeWordAt(raw: seq<byte>, k: nat)
    requires |raw| % 2 == 0 && 2 * k + 1 < |raw|
    ensures DecodeWords(raw)[k] == WordOf(raw[2 * k], raw[2 * k + 1])
    decreases k
  {
    if k > 0 { DecodeWordAt(raw[2..], k - 1); }
  }

  lemma WordBytesAt(hi: byte, lo: byte)
    ensures LowByteOf(WordOf(hi, lo) / 256) == hi && LowByteOf(WordOf(hi, lo)) == lo
  {
    WordRoundTrip(hi, lo);
  }

  lemma WordsRoundTrip(raw: seq<byte>, length: nat)
    requires |raw| == 2 * length
    ensures EncodeWords(DecodeWords(raw), length) == raw
  {
    var ws := DecodeWords(raw);
    forall k | 0 <= k < length
      ensures EncodeWords(ws, length)[2 * k] == raw[2 * k] && EncodeWords(ws, length)[2 * k + 1] == raw[2 * k + 1]
    {
      DecodeWordAt(raw, k);
      EncodeWordAt(ws, k);
      WordBytesAt(raw[2 * k], raw[2 * k + 1]);
    }
    PairsEqual(EncodeWords(ws, length), raw, length);
  }

  lemma PairsEqual<T>(s: seq<T>, t: seq<T>, n: nat)
    requires |s| == |t| == 2 * n
    requires forall k | 0 <= k < n :: s[2 * k] == t[2 * k] && s[2 * k + 1] == t[2 * k + 1]
    ensures s == t
  {
    forall i | 0 <= i < 2 * n ensures s[i] == t[i] {
      var k := i / 2;
      assert i == 2 * k || i == 2 * k + 1;
    }
  }

  lemma ByteNormal(f: Field, raw: seq<byte>)
    requires f.kind == U8 && f.Encodable() && |raw| == f.Size()
    ensures NormalField(f, raw) == raw
  {
    LowByteOfByte(raw[0]);
    assert raw == [raw[0]];
  }

  lemma VoiceNormal(f: Field, raw: seq<byte>)
    requires f.kind == VOICE && |raw| == f.Size()
    ensures NormalField(f, raw) == raw
  {
    WordsRoundTrip(raw, f.length);
  }

  lemma BytesNormal(f: Field, raw: seq<byte>)
    requires f.kind == BYTES && |raw| == f.Size()
    ensures NormalField(f, raw) == raw
  {}

  /** The normal form of a field decodes to the same value and flag, and a field is its own
      normal form exactly when `IsNormalField` says so. */
  lemma FieldNormalForm(f: Field, raw: seq<byte>)
    requires f.Encodable() && |raw| == f.Size()
    ensures DecodeField(f, NormalField(f, raw)) == DecodeField(f, raw)
    ensures ShowBit(f, NormalField(f, raw)) == ShowBit(f, raw)
    ensures NormalField(f, raw) == raw <==> IsNormalField(f, raw)
  {
    match f.kind
    case TEXT =>
      TextDecodesSame(f, raw);
      TextFixed(f, raw);
    case DIGITS => DigitsNormal(f, raw);
    case CODE => DigitsNormal(f, raw);
    case U8 => ByteNormal(f, raw);
    case U16 => WordRoundTrip(raw[0], raw[1]);
    case VOICE => VoiceNormal(f, raw);
    case BYTES => BytesNormal(f, raw);
  }

  // ---- Records ----

  function NormalFields(fields: seq<Field>, raw: seq<byte>): (r: seq<byte>)
    requires AllEncodable(fields) && |raw| == TotalSize(fields)
    ensures |r| == |raw|
    decreases |fields|
  {
    if fields == [] then []
    else
      var n := fields[0].Size();
      NormalField(fields[0], raw[..n]) + NormalFields(fields[1..], raw[n..])
  }

  predicate IsNormal(fields: seq<Field>, raw: seq<byte>)
    requires |raw| == TotalSize(fields)
    decreases |fields|
  {
    fields != [] ==>
      var n := fields[0].Size();
      IsNormalField(fields[0], raw[..n]) && IsNormal(fields[1..], raw[n..])
  }

  /** The keys decoding a field list writes. */
  function Keys(fields: seq<Field>): set<string> {
    if fields == [] then {} else OwnKeys(fields[0]) + Keys(fields[1..])
  }

  function OwnKeys(f: Field): set<string> {
    if f.kind == TEXT then {f.name, ShowKey(f)} else {f.name}
  }

  /** No key is written, or consulted by the encoder, for two different fields. */
  predicate KeysDisjoint(fields: seq<Field>)
    decreases |fields|
  {
    fields != [] ==> OwnKeys(fields[0]) !! Keys(fields[1..]) && KeysDisjoint(fields[1..])
  }

  /** The record holds what decoding `raw` yields for these fields. */
  predicate Holds(fields: seq<Field>, raw: seq<byte>, record: Record)
    requires AllEncodable(fields) && |raw| == TotalSize(fields)
    decreases |fields|
  {
    fields != [] ==>
      var f, n := fields[0], fields[0].Size();
      && f.name in record && record[f.name] == DecodeField(f, raw[..n])
      && (f.kind == TEXT ==> ShowKey(f) in record && record[ShowKey(f)] == Flag(ShowBit(f, raw[..n])))
      && Holds(fields[1..], raw[n..], record)
  }

  lemma ShowKeyDiffers(f: Field)
    ensures ShowKey(f) != f.name
  {
    assert |ShowKey(f)| == |f.name| + 4;
  }

  lemma {:induction false} DecodeKeepsOtherKeys(fields: seq<Field>, raw: seq<byte>, record: Record, k: string)
    requires AllEncodable(fields) && |raw| == TotalSize(fields) && k !in Keys(fields)
    ensures k in DecodeFrom(fields, raw, record) <==> k in record
    ensures k in record ==> DecodeFrom(fields, raw, record)[k] == record[k]
    decreases |fields|
  {
    if fields != [] {
      var n := fields[0].Size();
      DecodeKeepsOtherKeys(fields[1..], raw[n..], StoreField(fields[0], raw[..n], record), k);
    }
  }

  lemma StoredField(f: Field, chunk: seq<byte>, record: Record)
    requires f.Encodable() && |chunk| == f.Size()
    ensures var s := StoreField(f, chunk, record);
            && f.name in s && s[f.name] == DecodeField(f, chunk)
            && (f.kind == TEXT ==> ShowKey(f) in s && s[ShowKey(f)] == Flag(ShowBit(f, chunk)))
  {
    ShowKeyDiffers(f);
  }

  lemma {:induction false} DecodeHolds(fields: seq<Field>, raw: seq<byte>, record: Record)
    requires AllEncodable(fields) && |raw| == TotalSize(fields) && KeysDisjoint(fields)
    ensures Holds(fields, raw, DecodeFrom(fields, raw, record))
    decreases |fields|
  {
    if fields != [] {
      var f, n := fields[0], fields[0].Size();
      var stored := StoreField(f, raw[..n], record);
      StoredField(f, raw[..n], record);
      DecodeKeepsOtherKeys(fields[1..], raw[n..], stored, f.name);
      if f.kind == TEXT { DecodeKeepsOtherKeys(fields[1..], raw[n..], stored, ShowKey(f)); }
      DecodeHolds(fields[1..], raw[n..], stored);
    }
  }

  lemma {:induction false} HoldsWellTyped(fields: seq<Field>, raw: seq<byte>, record: Record)
    requires AllEncodable(fields) && |raw| == TotalSize(fields) && Holds(fields, raw, record)
    ensures WellTyped(fields, record)
    decreases |fields|
  {
    if fields != [] {
      HoldsWellTyped(fields[1..], raw[fields[0].Size()..], record);
      assert forall f | f in fields :: f == fields[0] || f in fields[1..];
    }
  }

  /** A record that holds what `raw` decodes to encodes to the normal form of `raw`, whatever
      else it holds. */
  lemma {:induction false} EncodeHolding(fields: seq<Field>, raw: seq<byte>, record: Record)
    requires AllEncodable(fields) && |raw| == TotalSize(fields) && Holds(fields, raw, record)
    ensures WellTyped(fields, record)
    ensures EncodeFields(fields, record) == NormalFields(fields, raw)
    decreases |fields|
  {
    HoldsWellTyped(fields, raw, record);
    if fields != [] {
      HeldField(fields[0], raw[..fields[0].Size()], record);
      EncodeHolding(fields[1..], raw[fields[0].Size()..], record);
    }
  }

  lemma HeldField(f: Field, chunk: seq<byte>, record: Record)
    requires f.Encodable() && |chunk| == f.Size()
    requires f.name in record && record[f.name] == DecodeField(f, chunk)
    requires f.kind == TEXT ==> ShowKey(f) in record && record[ShowKey(f)] == Flag(ShowBit(f, chunk))
    ensures FieldBytes(f, record) == NormalField(f, chunk)
  {}

  lemma {:induction false} NormalDecodesSame(fields: seq<Field>, raw: seq<byte>, record: Record)
    requires AllEncodable(fields) && |raw| == TotalSize(fields)
    ensures DecodeFrom(fields, NormalFields(fields, raw), record) == DecodeFrom(fields, raw, record)
    decreases |fields|
  {
    if fields != [] {
      var f, n := fields[0], fields[0].Size();
      var first, rest := NormalField(f, raw[..n]), NormalFields(fields[1..], raw[n..]);
      assert (first + rest)[..n] == first && (first + rest)[n..] == rest;
      FieldNormalForm(f, raw[..n]);
      NormalDecodesSame(fields[1..], raw[n..], StoreField(f, raw[..n], record));
    }
  }

  lemma {:induction false} NormalFixedPoints(fields: seq<Field>, raw: seq<byte>)
    requires AllEncodable(fields) && |raw| == TotalSize(fields)
    ensures NormalFields(fields, raw) == raw <==> IsNormal(fields, raw)
    decreases |fields|
  {
    if fields != [] {
      var f, n := fields[0], fields[0].Size();
      SplitEqual(raw, n, NormalField(f, raw[..n]), NormalFields(fields[1..], raw[n..]));
      FieldNormalForm(f, raw[..n]);
      NormalFixedPoints(fields[1..], raw[n..]);
    }
  }

  lemma SplitEqual<T>(s: seq<T>, n: nat, first: seq<T>, rest: seq<T>)
    requires |first| == n <= |s|
    ensures first + rest == s <==> first == s[..n] && rest == s[n..]
  {
    assert (first + rest)[..n] == first && (first + rest)[n..] == rest;
    assert s == s[..n] + s[n..];
  }

  /** A spec whose fields can be coded and do not share keys. */
  predicate WellFormed(spec: RecordSpec) {
    AllEncodable(spec.fields) && KeysDisjoint(spec.fields)
  }

  /** The normal form N(raw) of a record: what encoding after decoding gives. */
  function Normalised(spec: RecordSpec, raw: seq<byte>): (r: seq<byte>)
    requires WellFormed(spec) && |raw| == spec.Size()
    ensures |r| == spec.Size()
  {
    NormalFields(spec.fields, raw)
  }

  /** Decoding and encoding a record of the right size gives its normal form N: of the same
      size, decoding to the same record, idempotent, and fixed on exactly the records whose
      code and digit bytes are at most 9 and whose names are clean ASCII padded with spaces. */
  lemma RecordNormalForm(spec: RecordSpec, raw: seq<byte>)
    requires WellFormed(spec) && |raw| == spec.Size()
    ensures var record := DecodeRecord(spec, raw).value;
            WellTyped(spec.fields, record) && EncodeRecord(spec, record) == Normalised(spec, raw)
    ensures DecodeRecord(spec, Normalised(spec, raw)) == DecodeRecord(spec, raw)
    ensures Normalised(spec, Normalised(spec, raw)) == Normalised(spec, raw)
    ensures Normalised(spec, raw) == raw <==> IsNormal(spec.fields, raw)
  {
    var fields, out := spec.fields, Normalised(spec, raw);
    var record := DecodeFrom(fields, raw, map[]);
    DecodeHolds(fields, raw, map[]);
    EncodeHolding(fields, raw, record);
    NormalDecodesSame(fields, raw, map[]);
    DecodeHolds(fields, out, map[]);
    EncodeHolding(fields, out, record);
    NormalFixedPoints(fields, raw);
  }
}
