/** The panel's ASCII frames: length field and checksum, and the two validators
    (custom_components/elkm1/helpers/elk/message.py, custom_components/elkm1/helpers/framing.py).
    Characters are Latin-1, as the reader decodes them. */
module AsciiFrames {
  import opened Bytes

  // ---- Hexadecimal ----

  function HexDigit(d: nat): char
    requires d < 16
  {
    if d < 10 then (48 + d) as char else (55 + d) as char
  }

  function HexDigits(n: nat): (r: string)
    ensures |r| >= 1
  {
    if n < 16 then [HexDigit(n)] else HexDigits(n / 16) + [HexDigit(n % 16)]
  }

  /** The format `02X`. */
  function Hex2(n: nat): (r: string)
    ensures |r| >= 2
  {
    if n < 16 then "0" + HexDigits(n) else HexDigits(n)
  }

  function HexValue(c: char): Option<int> {
    if '0' <= c <= '9' then Some(c as int - 48)
    else if 'A' <= c <= 'F' then Some(c as int - 55)
    else if 'a' <= c <= 'f' then Some(c as int - 87)
    else None
  }

  /** What Python counts as white space among the Latin-1 characters. */
  predicate IsSpace(c: char) {
    9 <= c as int <= 13 || 28 <= c as int <= 32 || c as int == 0x85 || c as int == 0xA0
  }

  /** `int(s, 16)` for a slice of at most two characters; None is the ValueError. A sign or
      surrounding white space leaves room for a single digit. */
  function IntBase16(s: string): Option<int>
    requires |s| <= 2
  {
    if s == "" then None
    else if |s| == 1 then HexValue(s[0])
    else
      var a, b := HexValue(s[0]), HexValue(s[1]);
      if a.Some? && b.Some? then Some(16 * a.value + b.value)
      else if s[0] == '-' && b.Some? then Some(-b.value)
      else if (s[0] == '+' || IsSpace(s[0])) && b.Some? then b
      else if IsSpace(s[1]) then a
      else None
  }

  // ---- Checksums ----

  function Sum(s: string): nat {
    if s == "" then 0 else s[0] as int + Sum(s[1..])
  }

  /** `checksum`: two's complement of the sum; `total ^ 0xFF` is `255 - total` below 256. */
  function Checksum(body: string): string {
    var total := Sum(body) % 256;
    Hex2((255 - total + 1) % 256)
  }

  /** `_finalize`. */
  function Finalize(payload: string): string {
    var unsized := payload + "00";
    var body := Hex2(|unsized| + 2) + unsized;
    body + Checksum(body)
  }

  function Head(m: string): string { if |m| < 2 then m else m[..2] }

  function Tail(m: string): string { if |m| < 2 then m else m[|m| - 2..] }

  function Body(m: string): string { if |m| < 2 then "" else m[..|m| - 2] }

  /** `has_valid_length_and_checksum`. */
  predicate HasValidLengthAndChecksum(m: string) {
    && |m| >= 6
    && IntBase16(Head(m)) == Some(|m| - 2)
    && IntBase16(Tail(m)).Some?
    && (Sum(Body(m)) + IntBase16(Tail(m)).value) % 256 == 0
  }

  /** The dispatcher's check: no minimum length. */
  predicate IsValid(m: string) {
    && IntBase16(Head(m)) == Some(|m| - 2)
    && IntBase16(Tail(m)).Some?
    && (IntBase16(Tail(m)).value + Sum(Body(m))) % 256 == 0
  }

  /** `_is_valid_length_and_checksum`, with its accumulating loop. */
  method IsValidLengthAndChecksum(m: string) returns (valid: bool)
    ensures valid <==> IsValid(m)
  {
    var length := IntBase16(Head(m));
    if length.None? || length.value != |m| - 2 {
      return false;
    }
    var checksum := IntBase16(Tail(m));
    if checksum.None? {
      return false;
    }
    var total := checksum.value;
    var body := Body(m);
    for i := 0 to |body|
      invariant total + Sum(body[i..]) == checksum.value + Sum(body)
    {
      assert body[i..][1..] == body[i + 1..];
      total := total + body[i] as int;
    }
    return total % 256 == 0;
  }

  /** The two validators agree on every frame of at least six characters; below that the
      dispatcher's check alone can accept, as it does for "00". */
  lemma ValidatorsAgree(m: string)
    ensures HasValidLengthAndChecksum(m) <==> IsValid(m) && |m| >= 6
  {}

  lemma ShortestAccepted()
    ensures IsValid("00") && !HasValidLengthAndChecksum("00")
  {
    assert IntBase16("00") == Some(0);
    assert Head("00") == "00" && Tail("00") == "00" && Body("00") == "";
  }

  // ---- Finalised frames are valid ----

  lemma HexRoundTrip(n: nat)
    requires n < 256
    ensures |Hex2(n)| == 2 && IntBase16(Hex2(n)) == Some(n)
    ensures forall i | 0 <= i < 2 :: HexValue(Hex2(n)[i]).Some?
  {
    if n >= 16 {
      assert HexDigits(n / 16) == [HexDigit(n / 16)];
      assert Hex2(n) == [HexDigit(n / 16), HexDigit(n % 16)];
    } else {
      assert Hex2(n) == ['0', HexDigit(n)];
    }
  }

  /** A payload short enough for a two-digit length is framed so that both validators accept it. */
  lemma FinalizedIsValid(payload: string)
    requires |payload| <= 251
    ensures |Finalize(payload)| == |payload| + 6
    ensures HasValidLengthAndChecksum(Finalize(payload)) && IsValid(Finalize(payload))
  {
    var unsized := payload + "00";
    var n := |unsized| + 2;
    var body := Hex2(n) + unsized;
    var m := Finalize(payload);
    var total := Sum(body) % 256;
    var c := (255 - total + 1) % 256;
    HexRoundTrip(n);
    HexRoundTrip(c);
    assert m == body + Hex2(c);
    assert Head(m) == Hex2(n);
    assert Tail(m) == Hex2(c);
    assert Body(m) == body;
    ComplementCancels(Sum(body));
  }

  lemma ComplementCancels(s: nat)
    ensures (s + (255 - s % 256 + 1) % 256) % 256 == 0
  {}

  lemma TwoCharactersSmall(s: string)
    requires |s| <= 2 && IntBase16(s).Some?
    ensures IntBase16(s).value <= 255
  {}

  /** Exactly the payloads of at most 251 characters get a valid frame: beyond that the length
      takes three digits, and no two-character length field can state it. */
  lemma FinalizedValidIff(payload: string)
    ensures IsValid(Finalize(payload)) <==> |payload| <= 251
  {
    if |payload| <= 251 {
      FinalizedIsValid(payload);
    } else {
      var m := Finalize(payload);
      assert |m| >= |payload| + 6;
      if IsValid(m) { TwoCharactersSmall(Head(m)); }
    }
  }

  lemma SumConcat(a: string, b: string)
    ensures Sum(a + b) == Sum(a) + Sum(b)
  {
    if a == "" {
      assert a + b == b;
    } else {
      assert (a + b)[1..] == a[1..] + b;
      SumConcat(a[1..], b);
    }
  }

  /** The writer appends a second checksum to a frame that already carries one; what it sends
      is never a valid frame by this repository's own validators. */
  lemma WrittenFrameInvalid(payload: string)
    ensures var m := Finalize(payload);
            !IsValid(m + Checksum(m))
  {
    var m := Finalize(payload);
    HexRoundTrip((255 - Sum(m) % 256 + 1) % 256);
    assert Head(m + Checksum(m)) == Head(m);
    if |payload| <= 251 {
      FinalizedIsValid(payload);
    } else {
      assert |m| >= |payload| + 6;
      if IntBase16(Head(m)).Some? { TwoCharactersSmall(Head(m)); }
    }
  }

  lemma CannotBothCancel(rest: int, x: nat, y: nat)
    requires x < 256 && y < 256 && x != y && (rest + x) % 256 == 0
    ensures (rest + y) % 256 != 0
  {}

  lemma SumAround(a: string, c: char, b: string)
    ensures Sum(a + [c] + b) == Sum(a) + Sum(b) + c as int
  {
    assert a + [c] + b == a + ([c] + b);
    SumConcat(a, [c] + b);
    assert ([c] + b)[1..] == b;
  }

  lemma BodyAround(m: string, i: nat)
    requires 2 <= i < |m| - 2
    ensures Body(m) == m[..i] + [m[i]] + m[i + 1..|m| - 2]
  {
    assert m[..|m| - 2] == m[..i] + [m[i]] + m[i + 1..|m| - 2];
  }

  /** Frames that differ in one character of the body. */
  lemma ApartInBody(m: string, g: string, i: nat)
    requires |g| == |m| && 2 <= i < |m| - 2
    requires forall k | 0 <= k < |m| && k != i :: g[k] == m[k]
    ensures Tail(g) == Tail(m)
    ensures Body(m) == m[..i] + [m[i]] + m[i + 1..|m| - 2] && Body(g) == m[..i] + [g[i]] + m[i + 1..|m| - 2]
  {
    BodyAround(m, i);
    BodyAround(g, i);
    assert g[..i] == m[..i] && g[i + 1..|m| - 2] == m[i + 1..|m| - 2];
    assert g[|m| - 2..] == m[|m| - 2..];
  }

  /** Changing one character of the body of a valid frame is always noticed. */
  lemma SingleCharacterDetected(m: string, g: string, i: nat)
    requires IsValid(m) && |g| == |m| && 2 <= i < |m| - 2
    requires forall k | 0 <= k < |m| && k != i :: g[k] == m[k]
    requires g[i] != m[i] && g[i] as int < 256 && m[i] as int < 256
    ensures !IsValid(g)
  {
    var a, b := m[..i], m[i + 1..|m| - 2];
    ApartInBody(m, g, i);
    SumAround(a, m[i], b);
    SumAround(a, g[i], b);
    if IntBase16(Tail(m)).Some? {
      CannotBothCancel(IntBase16(Tail(m)).value + Sum(a) + Sum(b), m[i] as int, g[i] as int);
    }
  }
}
