/** What the values and bytes of a field are, byte by byte (src/elk_programmer/model/records.py): two
    relations that say it outright, and the proof that the codec computes them and nothing else. */
module FieldLaws {
  import opened Bytes
  import opened Positions
  import opened Specs
  import opened Records
  import opened RecordTheorems

  // ---- The relations ----

  /** `raw` means `v`. */
  predicate Means(f: Field, raw: seq<byte>, v: Value)
    requires f.Encodable() && |raw| == f.Size()
  {
    match f.kind
    case U8 => v == Number(raw[0] as int)
    case U16 => v == Number(raw[0] as int * 256 + raw[1] as int)
    case CODE =>
      && v.Text? && |v.s| == |raw|
      && forall k | 0 <= k < |raw| :: v.s[k] as int == 48 + raw[|raw| - 1 - k] as int % 10
    case DIGITS =>
      && v.Text? && |v.s| == |raw|
      && forall k | 0 <= k < |raw| :: v.s[k] as int == 48 + raw[k] as int % 10
    case TEXT =>
      && v.Text? && |v.s| <= |raw|
      && (forall k | 0 <= k < |v.s| :: v.s[k] as int == (raw[k] & 0x7F) as int)
      && (v.s != "" ==> v.s[|v.s| - 1] != ' ' && v.s[|v.s| - 1] != '\0')
      && forall k | |v.s| <= k < |raw| :: (raw[k] & 0x7F) as int == 0 || (raw[k] & 0x7F) as int == 32
    case VOICE =>
      && v.Words? && 2 * |v.ws| == |raw|
      && forall k | 0 <= k < |v.ws| :: v.ws[k] == raw[2 * k] as int * 256 + raw[2 * k + 1] as int
    case BYTES => v == Raw(raw)
  }

  /** The positions of the digits of a text, in order. */
  predicate DigitPositions(s: string, p: seq<int>) {
    && Rising(p, |s|) && (forall k | 0 <= k < |p| :: '0' <= s[p[k]] <= '9')
    && forall j | 0 <= j < |s| && '0' <= s[j] <= '9' :: j in p
  }

  /** The last digit comes first. */
  predicate CodeBytes(s: string, p: seq<int>, raw: seq<byte>)
    requires DigitPositions(s, p)
  {
    forall i | 0 <= i < |raw| :: raw[i] as int == if i < |p| then s[p[|p| - 1 - i]] as int - 48 else 0
  }

  predicate DigitsBytes(s: string, p: seq<int>, raw: seq<byte>)
    requires DigitPositions(s, p)
  {
    forall i | 0 <= i < |raw| :: raw[i] as int == if i < |p| then s[p[i]] as int - 48 else 0
  }

  function CharCode(s: string, i: nat): int {
    if i >= |s| then 32 else if s[i] as int < 128 then s[i] as int else 63
  }

  /** `v`, with its show flag if it is a text, is written as `raw`. */
  ghost predicate Writes(f: Field, v: Value, show: bool, raw: seq<byte>)
    requires Fits(f, v)
  {
    match f.kind
    case U8 => |raw| == 1 && raw[0] as int == v.n % 256
    case U16 => |raw| == 2 && raw[0] as int == v.n / 256 % 256 && raw[1] as int == v.n % 256
    case CODE => |raw| == f.length && exists p | DigitPositions(v.s, p) :: CodeBytes(v.s, p, raw)
    case DIGITS => |raw| == f.length && exists p | DigitPositions(v.s, p) :: DigitsBytes(v.s, p, raw)
    case TEXT =>
      && |raw| == f.length
      && forall i | 0 <= i < |raw| ::
           (raw[i] & 0x7F) as int == CharCode(v.s, i) && (raw[i] & 0x80 != 0 <==> i == 0 && show)
    case VOICE =>
      && |raw| == 2 * f.length
      && forall k | 0 <= k < f.length ::
           var w := if k < |v.ws| then v.ws[k] else 0;
           raw[2 * k] as int == w / 256 % 256 && raw[2 * k + 1] as int == w % 256
    case BYTES => |raw| == f.length && forall i | 0 <= i < |raw| :: raw[i] == if i < |v.b| then v.b[i] else 0
  }

  // ---- Decoding ----

  /** t is s without the spaces and NULs at its end. */
  predicate Stripped(s: string, t: string) {
    && t <= s && (t != "" ==> t[|t| - 1] != ' ' && t[|t| - 1] != '\0')
    && forall k | |t| <= k < |s| :: s[k] == ' ' || s[k] == '\0'
  }

  lemma StrippedIs(s: string, t: string)
    ensures Stripped(s, t) <==> t == RStrip(s)
  {
    RStripFacts(s);
    if Stripped(s, t) { RStripUnique(s, |t|); }
  }

  lemma LowCharsAre(raw: seq<byte>, k: nat)
    requires k < |raw|
    ensures LowChars(raw)[k] as int == (raw[k] & 0x7F) as int
  {}

  lemma StrippedMeans(f: Field, raw: seq<byte>, v: Value, s: string)
    requires f.kind == TEXT && f.Encodable() && |raw| == f.Size() && v.Text? && |s| == |raw|
    requires forall k | 0 <= k < |raw| :: s[k] as int == (raw[k] & 0x7F) as int
    ensures Means(f, raw, v) <==> Stripped(s, v.s)
  {
    if Means(f, raw, v) {
      forall k | |v.s| <= k < |s| ensures s[k] == ' ' || s[k] == '\0' { assert s[k] as int == 0 || s[k] as int == 32; }
      forall k | 0 <= k < |v.s| ensures v.s[k] == s[k] { assert v.s[k] as int == s[k] as int; }
    }
  }

  lemma TextMeans(f: Field, raw: seq<byte>, v: Value)
    requires f.kind == TEXT && f.Encodable() && |raw| == f.Size()
    ensures Means(f, raw, v) <==> v == DecodeField(f, raw)
  {
    if v.Text? {
      var s := LowChars(raw);
      forall k | 0 <= k < |raw| ensures s[k] as int == (raw[k] & 0x7F) as int { LowCharsAre(raw, k); }
      StrippedMeans(f, raw, v, s);
      StrippedIs(s, v.s);
    }
  }

  lemma WordsMean(f: Field, raw: seq<byte>, v: Value)
    requires f.kind == VOICE && |raw| == f.Size()
    ensures Means(f, raw, v) <==> v == DecodeField(f, raw)
  {
    forall k | 0 <= k < |DecodeWords(raw)|
      ensures DecodeWords(raw)[k] == raw[2 * k] as int * 256 + raw[2 * k + 1] as int
    {
      DecodeWordAt(raw, k);
    }
    if Means(f, raw, v) { assert v.ws == DecodeWords(raw); }
  }

  lemma SameChars(s: string, t: string)
    requires |s| == |t| && forall k | 0 <= k < |s| :: s[k] as int == t[k] as int
    ensures s == t
  {
    forall k | 0 <= k < |s| ensures s[k] == t[k] { assert s[k] as int == t[k] as int; }
  }

  lemma DigitsMean(f: Field, raw: seq<byte>, v: Value)
    requires (f.kind == CODE || f.kind == DIGITS) && f.Encodable() && |raw| == f.Size()
    ensures Means(f, raw, v) <==> v == DecodeField(f, raw)
  {
    var s := DecodeField(f, raw).s;
    if Means(f, raw, v) { SameChars(v.s, s); }
  }

  /** Decoding gives the value that the bytes of a field mean, and that value only. */
  lemma DecodeFieldIff(f: Field, raw: seq<byte>, v: Value)
    requires f.Encodable() && |raw| == f.Size()
    ensures Means(f, raw, v) <==> v == DecodeField(f, raw)
  {
    match f.kind
    case TEXT => TextMeans(f, raw, v);
    case VOICE => WordsMean(f, raw, v);
    case CODE => DigitsMean(f, raw, v);
    case DIGITS => DigitsMean(f, raw, v);
    case _ =>
  }

  // ---- Encoding ----

  lemma SameByte(a: byte, b: byte)
    ensures a as int == b as int <==> a == b
  {
    FromToInt(a);
    FromToInt(b);
  }

  lemma LowByteIs(v: int)
    ensures LowByteOf(v) as int == v % 256
  {
    IntFromTo(v % 256);
  }

  lemma SameBytes(a: seq<byte>, b: seq<byte>)
    requires |a| == |b| && forall i | 0 <= i < |a| :: a[i] as int == b[i] as int
    ensures a == b
  {
    forall i | 0 <= i < |a| ensures a[i] == b[i] { SameByte(a[i], b[i]); }
  }

  lemma NumberWrites(f: Field, v: Value, raw: seq<byte>)
    requires (f.kind == U8 || f.kind == U16) && f.Encodable() && Fits(f, v)
    ensures Writes(f, v, false, raw) <==> raw == EncodeField(f, v)
  {
    LowByteIs(v.n);
    LowByteIs(v.n / 256);
    if Writes(f, v, false, raw) { SameBytes(raw, EncodeField(f, v)); }
  }

  function TailOf(ws: seq<int>): seq<int> { if ws == [] then [] else ws[1..] }

  lemma EncodeWordsStep(ws: seq<int>, length: nat)
    requires length > 0
    ensures var w, out := if ws == [] then 0 else ws[0], EncodeWords(ws, length);
            && out[0] == LowByteOf(w / 256) && out[1] == LowByteOf(w)
            && out[2..] == EncodeWords(TailOf(ws), length - 1)
  {}

  /** Word k of these, or zero, stands at its place. */
  predicate WordAt(ws: seq<int>, k: nat, out: seq<byte>)
    requires 2 * k + 1 < |out|
  {
    var w := if k < |ws| then ws[k] else 0;
    out[2 * k] == LowByteOf(w / 256) && out[2 * k + 1] == LowByteOf(w)
  }

  lemma LaterWordAt(ws: seq<int>, k: nat, out: seq<byte>, rest: seq<byte>)
    requires |out| >= 2 && out[2..] == rest && 2 * k + 1 < |rest| && WordAt(TailOf(ws), k, rest)
    ensures WordAt(ws, k + 1, out)
  {
    assert rest[2 * k] == out[2 * (k + 1)] && rest[2 * k + 1] == out[2 * (k + 1) + 1];
  }

  lemma {:induction false} EncodedWordAt(ws: seq<int>, length: nat, k: nat)
    requires k < length
    ensures WordAt(ws, k, EncodeWords(ws, length))
    decreases k
  {
    EncodeWordsStep(ws, length);
    if k > 0 {
      EncodedWordAt(TailOf(ws), length - 1, k - 1);
      LaterWordAt(ws, k - 1, EncodeWords(ws, length), EncodeWords(TailOf(ws), length - 1));
    }
  }

  lemma WordsWritten(f: Field, v: Value)
    requires f.kind == VOICE && Fits(f, v)
    ensures Writes(f, v, false, EncodeField(f, v))
  {
    forall k | 0 <= k < f.length
      ensures var w, out := if k < |v.ws| then v.ws[k] else 0, EncodeField(f, v);
              out[2 * k] as int == w / 256 % 256 && out[2 * k + 1] as int == w % 256
    {
      var w := if k < |v.ws| then v.ws[k] else 0;
      EncodedWordAt(v.ws, f.length, k);
      LowByteIs(w / 256);
      LowByteIs(w);
    }
  }

  lemma WordsWrite(f: Field, v: Value, raw: seq<byte>)
    requires f.kind == VOICE && Fits(f, v)
    ensures Writes(f, v, false, raw) <==> raw == EncodeField(f, v)
  {
    WordsWritten(f, v);
    if Writes(f, v, false, raw) {
      var out := EncodeField(f, v);
      forall k | 0 <= k < f.length ensures raw[2 * k] == out[2 * k] && raw[2 * k + 1] == out[2 * k + 1] {
        SameByte(raw[2 * k], out[2 * k]);
        SameByte(raw[2 * k + 1], out[2 * k + 1]);
      }
      PairsEqual(raw, out, f.length);
    }
  }

  // ---- Digits ----

  /** The first character, if it is a digit. */
  function FirstDigit(s: string): seq<int>
    requires s != ""
  {
    if '0' <= s[0] <= '9' then [0] else []
  }

  /** The digits of the rest, by their positions in the whole. */
  lemma LaterPositions(s: string, q: seq<int>)
    requires s != "" && DigitPositions(s[1..], q)
    ensures Rising(Shifted(q, 1), |s|) && Rising([0] + Shifted(q, 1), |s|)
    ensures forall k | 0 <= k < |q| :: '0' <= s[Shifted(q, 1)[k]] <= '9'
    ensures forall j | 0 < j < |s| && '0' <= s[j] <= '9' :: j in Shifted(q, 1)
  {
    RisingShifted(q, |s| - 1);
    forall k | 0 <= k < |q| ensures '0' <= s[Shifted(q, 1)[k]] <= '9' { assert s[1..][q[k]] == s[q[k] + 1]; }
    forall j | 0 < j < |s| && '0' <= s[j] <= '9' ensures j in Shifted(q, 1) {
      assert s[1..][j - 1] == s[j];
      InShifted(q, 1, j);
    }
  }

  lemma FirstPosition(s: string, r: seq<int>)
    requires s != "" && '0' <= s[0] <= '9' && Rising([0] + r, |s|) && Rising(r, |s|)
    requires forall k | 0 <= k < |r| :: '0' <= s[r[k]] <= '9'
    requires forall j | 0 < j < |s| && '0' <= s[j] <= '9' :: j in r
    ensures DigitPositions(s, [0] + r)
  {
    var p := [0] + r;
    forall k | 0 <= k < |p| ensures '0' <= s[p[k]] <= '9' { assert k > 0 ==> p[k] == r[k - 1]; }
    forall j | 0 <= j < |s| && '0' <= s[j] <= '9' ensures j in p { InFirst(r, j); }
  }

  lemma PositionsNext(s: string, q: seq<int>)
    requires s != "" && DigitPositions(s[1..], q)
    ensures DigitPositions(s, FirstDigit(s) + Shifted(q, 1))
  {
    LaterPositions(s, q);
    if '0' <= s[0] <= '9' {
      FirstPosition(s, Shifted(q, 1));
    } else {
      assert [] + Shifted(q, 1) == Shifted(q, 1);
    }
  }

  /** The parser finds those digits. */
  predicate Parses(s: string, p: seq<int>, digits: seq<int>) {
    && DigitPositions(s, p) && |p| == |digits|
    && forall k | 0 <= k < |p| :: digits[k] == s[p[k]] as int - 48
  }

  lemma LaterValues(s: string, q: seq<int>, found: seq<int>)
    requires s != "" && Parses(s[1..], q, found)
    ensures forall k | 0 <= k < |q| :: 0 <= q[k] + 1 < |s| && found[k] == s[q[k] + 1] as int - 48
  {
    forall k | 0 <= k < |q| ensures 0 <= q[k] + 1 < |s| && found[k] == s[q[k] + 1] as int - 48 {
      assert s[1..][q[k]] == s[q[k] + 1];
    }
  }

  lemma ParsesHead(s: string, r: seq<int>, found: seq<int>)
    requires s != "" && DigitPositions(s, [0] + r) && |r| == |found|
    requires forall k | 0 <= k < |r| :: 0 <= r[k] < |s| && found[k] == s[r[k]] as int - 48
    ensures Parses(s, [0] + r, [s[0] as int - 48] + found)
  {
    var p, digits := [0] + r, [s[0] as int - 48] + found;
    forall k | 0 <= k < |p| ensures digits[k] == s[p[k]] as int - 48 {
      assert k > 0 ==> p[k] == r[k - 1] && digits[k] == found[k - 1];
    }
  }

  lemma ParsesFirst(s: string, q: seq<int>, found: seq<int>)
    requires s != "" && Parses(s[1..], q, found) && '0' <= s[0] <= '9'
    ensures Parses(s, [0] + Shifted(q, 1), [s[0] as int - 48] + found)
  {
    PositionsNext(s, q);
    LaterValues(s, q, found);
    ParsesHead(s, Shifted(q, 1), found);
  }

  lemma ParsesLater(s: string, q: seq<int>, found: seq<int>)
    requires s != "" && Parses(s[1..], q, found) && !('0' <= s[0] <= '9')
    ensures Parses(s, Shifted(q, 1), found)
  {
    PositionsNext(s, q);
    LaterValues(s, q, found);
    assert [] + Shifted(q, 1) == Shifted(q, 1);
  }

  lemma {:induction false} ParsedPositions(s: string) returns (p: seq<int>)
    ensures Parses(s, p, ParseDigits(s))
  {
    p := [];
    if s != "" {
      var q := ParsedPositions(s[1..]);
      if '0' <= s[0] <= '9' {
        ParsesFirst(s, q, ParseDigits(s[1..]));
        p := [0] + Shifted(q, 1);
      } else {
        ParsesLater(s, q, ParseDigits(s[1..]));
        p := Shifted(q, 1);
      }
    }
  }

  lemma {:induction false} PrefixAgrees(s: string, p: seq<int>, q: seq<int>, n: nat)
    requires DigitPositions(s, p) && DigitPositions(s, q) && n <= |p| && n <= |q|
    ensures p[..n] == q[..n]
  {
    if n > 0 {
      PrefixAgrees(s, p, q, n - 1);
      NextAgrees(s, p, q, n - 1);
      assert p[..n] == p[..n - 1] + [p[n - 1]] && q[..n] == q[..n - 1] + [q[n - 1]];
    }
  }

  lemma NextAgrees(s: string, p: seq<int>, q: seq<int>, m: nat)
    requires DigitPositions(s, p) && DigitPositions(s, q) && m < |p| && m < |q| && p[..m] == q[..m]
    ensures p[m] == q[m]
  {
    NotBefore(s, p, q, m);
    NotBefore(s, q, p, m);
  }

  lemma NotBefore(s: string, p: seq<int>, q: seq<int>, m: nat)
    requires DigitPositions(s, p) && DigitPositions(s, q) && m < |p| && m <= |q| && p[..m] == q[..m]
    ensures m < |q| && p[m] >= q[m]
  {
    var k :| 0 <= k < |q| && q[k] == p[m];
    assert forall i | 0 <= i < m :: p[i] == p[..m][i] && q[i] == q[..m][i];
  }

  lemma PositionsUnique(s: string, p: seq<int>, q: seq<int>)
    requires DigitPositions(s, p) && DigitPositions(s, q)
    ensures p == q
  {
    var n := if |p| < |q| then |p| else |q|;
    PrefixAgrees(s, p, q, n);
    if |p| < |q| { NotBefore(s, q, p, n); }
    if |q| < |p| { NotBefore(s, p, q, n); }
  }

  predicate AllDigits(digits: seq<int>) { forall i | 0 <= i < |digits| :: 0 <= digits[i] < 10 }

  lemma DigitByteAt(digits: seq<int>, i: nat)
    requires AllDigits(digits) && i < |digits|
    ensures DigitBytes(digits)[i] as int == digits[i]
  {
    IntFromTo(digits[i]);
  }

  lemma CodeByteAt(digits: seq<int>, length: nat, i: nat)
    requires AllDigits(digits) && i < length
    ensures Reversed(DigitBytes(LastDigits(digits, length)))[i] as int ==
            if i < |digits| then digits[|digits| - 1 - i] else 0
  {
    DigitByteAt(LastDigits(digits, length), length - 1 - i);
  }

  lemma DigitsByteAt(digits: seq<int>, length: nat, i: nat)
    requires AllDigits(digits) && i < length
    ensures DigitBytes(FirstDigits(digits, length))[i] as int == if i < |digits| then digits[i] else 0
  {
    DigitByteAt(FirstDigits(digits, length), i);
  }

  /** Digit i from the end, by its position. */
  lemma LastDigitAt(s: string, p: seq<int>, digits: seq<int>, i: nat)
    requires Parses(s, p, digits) && i < |p|
    ensures digits[|digits| - 1 - i] == s[p[|p| - 1 - i]] as int - 48
  {}

  lemma CodeWritten(f: Field, v: Value, p: seq<int>)
    requires f.kind == CODE && f.Encodable() && Fits(f, v) && Parses(v.s, p, ParseDigits(v.s))
    ensures CodeBytes(v.s, p, EncodeField(f, v))
  {
    CodeWrittenAs(v.s, ParseDigits(v.s), f.length, p, EncodeField(f, v));
  }

  lemma CodeWrittenAs(s: string, digits: seq<int>, length: nat, p: seq<int>, out: seq<byte>)
    requires AllDigits(digits) && Parses(s, p, digits) && out == Reversed(DigitBytes(LastDigits(digits, length)))
    ensures CodeBytes(s, p, out)
  {
    forall i | 0 <= i < |out| ensures out[i] as int == if i < |p| then s[p[|p| - 1 - i]] as int - 48 else 0 {
      CodeByteAt(digits, length, i);
      if i < |p| { LastDigitAt(s, p, digits, i); }
    }
  }

  lemma DigitsWritten(f: Field, v: Value, p: seq<int>)
    requires f.kind == DIGITS && f.Encodable() && Fits(f, v) && Parses(v.s, p, ParseDigits(v.s))
    ensures DigitsBytes(v.s, p, EncodeField(f, v))
  {
    var digits, out := ParseDigits(v.s), EncodeField(f, v);
    forall i | 0 <= i < |out| ensures out[i] as int == if i < |p| then v.s[p[i]] as int - 48 else 0 {
      DigitsByteAt(digits, f.length, i);
    }
  }

  lemma SameCode(s: string, p: seq<int>, q: seq<int>, raw: seq<byte>, out: seq<byte>)
    requires DigitPositions(s, p) && DigitPositions(s, q) && |raw| == |out|
    requires CodeBytes(s, p, out) && CodeBytes(s, q, raw)
    ensures raw == out
  {
    PositionsUnique(s, p, q);
    SameBytes(raw, out);
  }

  lemma SameDigits(s: string, p: seq<int>, q: seq<int>, raw: seq<byte>, out: seq<byte>)
    requires DigitPositions(s, p) && DigitPositions(s, q) && |raw| == |out|
    requires DigitsBytes(s, p, out) && DigitsBytes(s, q, raw)
    ensures raw == out
  {
    PositionsUnique(s, p, q);
    SameBytes(raw, out);
  }

  lemma CodeWrites(f: Field, v: Value, raw: seq<byte>)
    requires f.kind == CODE && f.Encodable() && Fits(f, v)
    ensures Writes(f, v, false, raw) <==> raw == EncodeField(f, v)
  {
    var p := ParsedPositions(v.s);
    CodeWritten(f, v, p);
    if Writes(f, v, false, raw) {
      var q :| DigitPositions(v.s, q) && CodeBytes(v.s, q, raw);
      SameCode(v.s, p, q, raw, EncodeField(f, v));
    }
  }

  lemma DigitsWrite(f: Field, v: Value, raw: seq<byte>)
    requires f.kind == DIGITS && f.Encodable() && Fits(f, v)
    ensures Writes(f, v, false, raw) <==> raw == EncodeField(f, v)
  {
    var p := ParsedPositions(v.s);
    DigitsWritten(f, v, p);
    if Writes(f, v, false, raw) {
      var q :| DigitPositions(v.s, q) && DigitsBytes(v.s, q, raw);
      SameDigits(v.s, p, q, raw, EncodeField(f, v));
    }
  }

  // ---- Text ----

  lemma AsciiByteIs(c: char)
    ensures AsciiByte(c) & 0x80 == 0
    ensures (AsciiByte(c) & 0x7F) as int == if c as int < 128 then c as int else 63
  {
    var b := AsciiByte(c);
    if c as int < 128 { IntFromTo(c as int); }
    assert b < 0x80;
    assert b & 0x7F == b && b & 0x80 == 0;
  }

  lemma MasksTell(a: byte, b: byte)
    requires (a & 0x7F) as int == (b & 0x7F) as int && (a & 0x80 != 0 <==> b & 0x80 != 0)
    ensures a == b
  {
    SameByte(a & 0x7F, b & 0x7F);
    MaskFacts(a);
    MaskFacts(b);
  }

  lemma ShowMasks(b: byte)
    requires b & 0x80 == 0
    ensures (b | 0x80) & 0x7F == b & 0x7F && (b | 0x80) & 0x80 != 0
  {}

  lemma TextWritten(f: Field, v: Value, show: bool)
    requires f.kind == TEXT && f.Encodable() && Fits(f, v)
    ensures Writes(f, v, show, WithShow(f, EncodeField(f, v), show))
  {
    var plain := TextToBytes(v.s, f.length);
    forall i | 0 <= i < f.length
      ensures (plain[i] & 0x7F) as int == CharCode(v.s, i) && plain[i] & 0x80 == 0
      ensures ((plain[i] | 0x80) & 0x7F) as int == CharCode(v.s, i) && (plain[i] | 0x80) & 0x80 != 0
    {
      AsciiByteIs(if i < |v.s| then v.s[i] else ' ');
      ShowMasks(plain[i]);
    }
  }

  lemma TextWrites(f: Field, v: Value, show: bool, raw: seq<byte>)
    requires f.kind == TEXT && f.Encodable() && Fits(f, v)
    ensures Writes(f, v, show, raw) <==> raw == WithShow(f, EncodeField(f, v), show)
  {
    TextWritten(f, v, show);
    if Writes(f, v, show, raw) {
      var out := WithShow(f, EncodeField(f, v), show);
      forall i | 0 <= i < |raw| ensures raw[i] == out[i] { MasksTell(raw[i], out[i]); }
    }
  }

  /** Encoding gives the bytes that a value is written as, and those bytes only. */
  lemma EncodeFieldIff(f: Field, v: Value, show: bool, raw: seq<byte>)
    requires f.Encodable() && Fits(f, v)
    ensures Writes(f, v, show, raw) <==> raw == WithShow(f, EncodeField(f, v), show)
  {
    match f.kind
    case TEXT => TextWrites(f, v, show, raw);
    case VOICE => WordsWrite(f, v, raw);
    case CODE => CodeWrites(f, v, raw);
    case DIGITS => DigitsWrite(f, v, raw);
    case BYTES => if Writes(f, v, show, raw) { assert raw == EncodeField(f, v); }
    case _ => NumberWrites(f, v, raw);
  }
}
