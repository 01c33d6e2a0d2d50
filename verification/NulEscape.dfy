/** `crypt_string`: RC4 over text, with the seven characters `[ESC]00` standing in for NUL
    (src/elk_programmer/storage/elksafe.py). The stand-in is not itself escaped, so the
    inverse law has an exact condition. */
module NulEscape {
  import opened Bytes
  import opened ElkSafe

  const ESCAPE: string := "[ESC]00"

  /** The same seven characters as bytes. */
  const LITERAL: seq<byte> := [0x5B, 0x45, 0x53, 0x43, 0x5D, 0x30, 0x30]

  /** `chr(b)`. */
  function CharOf(b: byte): char { ToInt(b) as char }

  /** `ord(ch) & 0xFF`. */
  function ByteOfChar(c: char): byte { LowByteOf(c as int) }

  function Escape(data: seq<byte>): string {
    if data == [] then ""
    else (if data[0] == 0 then ESCAPE else [CharOf(data[0])]) + Escape(data[1..])
  }

  function Unescape(text: string): seq<byte>
    decreases |text|
  {
    if text == "" then []
    else if ESCAPE <= text then [0] + Unescape(text[7..])
    else [ByteOfChar(text[0])] + Unescape(text[1..])
  }

  function CryptString(key: seq<byte>, text: string): string
    requires key != []
  {
    Escape(Rc4(key, Unescape(text)))
  }

  /** The scanning loop at the head of `crypt_string`. */
  method UnescapeText(text: string) returns (raw: seq<byte>)
    ensures raw == Unescape(text)
  {
    raw := [];
    var i := 0;
    while i < |text|
      invariant i <= |text|
      invariant raw + Unescape(text[i..]) == Unescape(text)
    {
      UnescapeNext(text, i, raw);
      if StartsEscape(text, i) {
        raw := raw + [0];
        i := i + 7;
      } else {
        raw := raw + [ByteOfChar(text[i])];
        i := i + 1;
      }
    }
  }

  /** `text.startswith("[ESC]00", i)`. */
  predicate StartsEscape(text: string, i: nat)
    requires i <= |text|
  {
    ESCAPE <= text[i..]
  }

  lemma UnescapeNext(text: string, i: nat, raw: seq<byte>)
    requires i < |text|
    ensures StartsEscape(text, i) ==>
              i + 7 <= |text| && raw + Unescape(text[i..]) == raw + [0] + Unescape(text[i + 7..])
    ensures !StartsEscape(text, i) ==>
              raw + Unescape(text[i..]) == raw + [ByteOfChar(text[i])] + Unescape(text[i + 1..])
  {
    var rest := text[i..];
    if ESCAPE <= rest {
      assert rest[7..] == text[i + 7..];
    } else {
      assert rest[1..] == text[i + 1..];
    }
  }

  /** The join at its end. */
  method EscapeBytes(data: seq<byte>) returns (out: string)
    ensures out == Escape(data)
  {
    out := "";
    for n := 0 to |data|
      invariant out + Escape(data[n..]) == Escape(data)
    {
      assert data[n..][1..] == data[n + 1..];
      out := out + if data[n] == 0 then ESCAPE else [CharOf(data[n])];
    }
  }

  method CryptText(key: seq<byte>, text: string) returns (out: string)
    requires key != []
    ensures out == CryptString(key, text)
  {
    var raw := UnescapeText(text);
    var crypted := Crypt(key, raw);
    out := EscapeBytes(crypted);
  }

  // ---- What escaping and unescaping do to bytes ----

  predicate ContainsLiteral(data: seq<byte>) {
    data != [] && (LITERAL <= data || ContainsLiteral(data[1..]))
  }

  /** Unescaping the escaped form replaces each literal, leftmost first, by one NUL. */
  function Collapse(data: seq<byte>): (r: seq<byte>)
    ensures |r| <= |data|
    decreases |data|
  {
    if data == [] then []
    else if LITERAL <= data then [0] + Collapse(data[7..])
    else [data[0]] + Collapse(data[1..])
  }

  lemma ByteOfCharOf(b: byte)
    ensures ByteOfChar(CharOf(b)) == b
  {
    LowByteOfByte(b);
  }

  lemma CharOfByteOf(c: char)
    requires c as int < 256
    ensures CharOf(ByteOfChar(c)) == c
  {
    IntFromTo(c as int);
  }

  /** The bytes of a text without escapes, and the characters of bytes without NUL. */
  function Codes(text: string): (r: seq<byte>)
    ensures |r| == |text|
  {
    if text == "" then [] else [ByteOfChar(text[0])] + Codes(text[1..])
  }

  function Chars(data: seq<byte>): (r: string)
    ensures |r| == |data|
  {
    if data == [] then "" else [CharOf(data[0])] + Chars(data[1..])
  }

  lemma LiteralIsEscape()
    ensures Codes(ESCAPE) == LITERAL && Chars(LITERAL) == ESCAPE
  {
    assert CharOf(0x5B) == '[' && CharOf(0x45) == 'E' && CharOf(0x53) == 'S' && CharOf(0x43) == 'C';
    assert CharOf(0x5D) == ']' && CharOf(0x30) == '0';
    assert Chars(LITERAL) == ESCAPE;
    CodesOfChars(LITERAL);
  }

  lemma {:induction false} CodesOfChars(data: seq<byte>)
    ensures Codes(Chars(data)) == data
  {
    if data != [] {
      ByteOfCharOf(data[0]);
      assert Chars(data)[1..] == Chars(data[1..]);
      CodesOfChars(data[1..]);
    }
  }

  /** A bracket-free text at the head of an escaped text comes from its own bytes: no escape
      can begin inside it. */
  lemma {:induction false} BracketFreeMatch(text: string, data: seq<byte>)
    requires '[' !in text && text <= Escape(data)
    ensures Codes(text) <= data
  {
    if text != "" {
      var e := Escape(data);
      assert e[0] == text[0];
      assert data[0] != 0;
      assert e[1..] == Escape(data[1..]);
      BracketFreeMatch(text[1..], data[1..]);
      ByteOfCharOf(data[0]);
      assert data == [data[0]] + data[1..];
    }
  }

  /** The same when only the first character may be a bracket and it does not begin an escape. */
  lemma PlainHeadMatch(text: string, data: seq<byte>)
    requires text != "" && '[' !in text[1..]
    requires data != [] && data[0] != 0 && text <= Escape(data)
    ensures Codes(text) <= data
  {
    var e := Escape(data);
    assert e[0] == text[0];
    assert e[1..] == Escape(data[1..]);
    assert text[1..] <= e[1..];
    BracketFreeMatch(text[1..], data[1..]);
    ByteOfCharOf(data[0]);
    assert data == [data[0]] + data[1..];
  }

  lemma EscapeStartsLiteral(data: seq<byte>)
    requires data != [] && data[0] != 0 && ESCAPE <= Escape(data)
    ensures LITERAL <= data
  {
    PlainHeadMatch(ESCAPE, data);
    LiteralIsEscape();
  }

  lemma UnescapeEscapeFirst(rest: string)
    ensures Unescape(ESCAPE + rest) == [0] + Unescape(rest)
  {
    assert (ESCAPE + rest)[7..] == rest;
  }

  lemma UnescapeCharFirst(c: char, rest: string)
    requires !(ESCAPE <= [c] + rest)
    ensures Unescape([c] + rest) == [ByteOfChar(c)] + Unescape(rest)
  {
    assert ([c] + rest)[1..] == rest;
  }

  lemma LiteralIsPlain()
    ensures 0 !in LITERAL
  {}

  lemma EscapeLiteralFirst(rest: seq<byte>)
    ensures Escape(LITERAL + rest) == ESCAPE + Escape(rest)
  {
    LiteralIsEscape();
    LiteralIsPlain();
    EscapePlain(LITERAL, rest);
  }

  lemma {:induction false} EscapePlain(data: seq<byte>, rest: seq<byte>)
    requires 0 !in data
    ensures Escape(data + rest) == Chars(data) + Escape(rest)
  {
    if data == [] {
      assert data + rest == rest;
    } else {
      assert (data + rest)[1..] == data[1..] + rest;
      EscapePlain(data[1..], rest);
    }
  }

  lemma {:induction false} UnescapeEscape(data: seq<byte>)
    ensures Unescape(Escape(data)) == Collapse(data)
    decreases |data|
  {
    if data == [] {
    } else if data[0] == 0 {
      UnescapeEscapeFirst(Escape(data[1..]));
      UnescapeEscape(data[1..]);
    } else if LITERAL <= data {
      assert data == LITERAL + data[7..];
      EscapeLiteralFirst(data[7..]);
      UnescapeEscapeFirst(Escape(data[7..]));
      UnescapeEscape(data[7..]);
    } else {
      if ESCAPE <= Escape(data) { EscapeStartsLiteral(data); }
      UnescapeCharFirst(CharOf(data[0]), Escape(data[1..]));
      ByteOfCharOf(data[0]);
      UnescapeEscape(data[1..]);
    }
  }

  lemma {:induction false} CollapseShortens(data: seq<byte>)
    ensures ContainsLiteral(data) ==> |Collapse(data)| < |data|
    ensures !ContainsLiteral(data) ==> Collapse(data) == data
    decreases |data|
  {
    if data != [] && !(LITERAL <= data) { CollapseShortens(data[1..]); }
  }

  /** The escape is undone exactly when the bytes do not already contain the seven literal
      bytes `[ESC]00`. */
  lemma EscapeInverse(data: seq<byte>)
    ensures Unescape(Escape(data)) == data <==> !ContainsLiteral(data)
  {
    UnescapeEscape(data);
    CollapseShortens(data);
  }

  // ---- Text ----

  predicate Representable(text: string) {
    forall i | 0 <= i < |text| :: 1 <= text[i] as int <= 255
  }

  lemma {:induction false} EscapeRepresentable(data: seq<byte>)
    ensures Representable(Escape(data))
  {
    if data != [] {
      EscapeRepresentable(data[1..]);
      if data[0] != 0 {
        NonZeroByte(data[0]);
      }
    }
  }

  lemma NonZeroByte(b: byte)
    requires b != 0
    ensures 1 <= ToInt(b)
  {
    FromToInt(b);
    FromToInt(0);
    Ends();
  }

  lemma {:induction false} EscapeUnescape(text: string)
    requires Representable(text)
    ensures Escape(Unescape(text)) == text
    decreases |text|
  {
    if text == "" {
    } else if ESCAPE <= text {
      EscapeUnescape(text[7..]);
      assert ([0] + Unescape(text[7..]))[1..] == Unescape(text[7..]);
    } else {
      var c := text[0];
      var b := ByteOfChar(c);
      EscapeUnescape(text[1..]);
      CharOfByteOf(c);
      assert b != 0 by { Ends(); IntFromTo(c as int); }
      assert ([b] + Unescape(text[1..]))[1..] == Unescape(text[1..]);
      assert text == [c] + text[1..];
    }
  }

  /** Applying `crypt_string` twice restores a text exactly when its characters lie in 1..255
      and the ciphertext in between does not contain the seven literal bytes. */
  lemma CryptTwice(key: seq<byte>, text: string)
    requires key != []
    ensures CryptString(key, CryptString(key, text)) == text <==>
            Representable(text) && !ContainsLiteral(Rc4(key, Unescape(text)))
  {
    var plain := Unescape(text);
    var cipher := Rc4(key, plain);
    var back := Rc4(key, Collapse(cipher));
    UnescapeEscape(cipher);
    assert CryptString(key, CryptString(key, text)) == Escape(back);
    EscapeRepresentable(back);
    CollapseShortens(cipher);
    if Representable(text) {
      EscapeUnescape(text);
      if !ContainsLiteral(cipher) {
        Rc4Inverse(key, plain);
      } else if Escape(back) == text {
        UnescapeEscape(back);
        assert false;
      }
    }
  }
}
