/**
 Decoding one escaped attribute value of a distinguished name (net/domain/client.py:329-350),
 against every escaping that sections 2.4 and 3 of RFC 4514 allow.
 */
module DnValue {
  import opened Outcomes

  type Byte = x: int | 0 <= x < 256

  // ---------------------------------------------------------------------------------------
  // UTF-8
  // ---------------------------------------------------------------------------------------

  function EncodeChar(c: char): (bytes: seq<Byte>)
    ensures 1 <= |bytes| <= 4
  {
    var code := c as int;
    if code < 0x80 then [code]
    else if code < 0x800 then [0xC0 + code / 64, 0x80 + code % 64]
    else if code < 0x10000 then [0xE0 + code / 4096, 0x80 + code / 64 % 64, 0x80 + code % 64]
    else [0xF0 + code / 262144, 0x80 + code / 4096 % 64, 0x80 + code / 64 % 64, 0x80 + code % 64]
  }

  function Encode(s: string): (bytes: seq<Byte>) {
    if s == "" then [] else EncodeChar(s[0]) + Encode(s[1..])
  }

  /** One character of every width, in the bytes of UTF-8. */
  lemma EncodingReads()
    ensures EncodeChar('a') == [0x61] && EncodeChar('\U{e9}') == [0xC3, 0xA9]
    ensures EncodeChar('\U{4e2d}') == [0xE4, 0xB8, 0xAD] && EncodeChar('\U{1f600}') == [0xF0, 0x9F, 0x98, 0x80]
  {
  }

  predicate IsTail(b: Byte) { 0x80 <= b < 0xC0 }

  /** The code point at the front of strict UTF-8, and the bytes it takes. */
  function DecodeFront(bytes: seq<Byte>): (front: Option<(char, nat)>)
    requires bytes != []
    ensures front.Some? ==> 1 <= front.value.1 <= |bytes|
  {
    var b: int := bytes[0];
    if b < 0x80 then Some((b as char, 1))
    else if 0xC0 <= b < 0xE0 && |bytes| >= 2 && IsTail(bytes[1]) then
      var code: int := (b - 0xC0) * 64 + (bytes[1] as int - 0x80);
      if code >= 0x80 then Some((code as char, 2)) else None
    else if 0xE0 <= b < 0xF0 && |bytes| >= 3 && IsTail(bytes[1]) && IsTail(bytes[2]) then
      var code: int := (b - 0xE0) * 4096 + (bytes[1] as int - 0x80) * 64 + (bytes[2] as int - 0x80);
      if code >= 0x800 && !(0xD800 <= code < 0xE000) then Some((code as char, 3)) else None
    else if 0xF0 <= b < 0xF8 && |bytes| >= 4 && IsTail(bytes[1]) && IsTail(bytes[2]) && IsTail(bytes[3]) then
      var code: int := (b - 0xF0) * 262144 + (bytes[1] as int - 0x80) * 4096
                       + (bytes[2] as int - 0x80) * 64 + (bytes[3] as int - 0x80);
      if 0x10000 <= code < 0x110000 then Some((code as char, 4)) else None
    else None
  }

  function Decode(bytes: seq<Byte>): (s: Option<string>) {
    if bytes == [] then Some("")
    else
      match DecodeFront(bytes)
      case None => None
      case Some((c, n)) =>
        match Decode(bytes[n..])
        case None => None
        case Some(rest) => Some([c] + rest)
  }

  lemma DivMod64(code: nat)
    ensures code == code / 64 * 64 + code % 64 && 0 <= code % 64 < 64
    ensures code / 4096 == code / 64 / 64 && code / 262144 == code / 4096 / 64
  {
  }

  lemma ShortFront(c: char, rest: seq<Byte>)
    requires c as int < 0x800
    ensures DecodeFront(EncodeChar(c) + rest) == Some((c, |EncodeChar(c)|))
  {
    var bytes := EncodeChar(c) + rest;
    assert forall i :: 0 <= i < |EncodeChar(c)| ==> bytes[i] == EncodeChar(c)[i];
  }

  lemma WideFront(c: char, rest: seq<Byte>)
    requires 0x800 <= c as int < 0x10000
    ensures DecodeFront(EncodeChar(c) + rest) == Some((c, 3))
  {
    DivMod64(c as int);
    DivMod64(c as int / 64);
    var bytes := EncodeChar(c) + rest;
    assert bytes[0] == EncodeChar(c)[0] && bytes[1] == EncodeChar(c)[1] && bytes[2] == EncodeChar(c)[2];
  }

  lemma AstralFront(c: char, rest: seq<Byte>)
    requires 0x10000 <= c as int
    ensures DecodeFront(EncodeChar(c) + rest) == Some((c, 4))
  {
    DivMod64(c as int);
    DivMod64(c as int / 64);
    DivMod64(c as int / 4096);
    var bytes := EncodeChar(c) + rest;
    assert bytes[0] == EncodeChar(c)[0] && bytes[1] == EncodeChar(c)[1];
    assert bytes[2] == EncodeChar(c)[2] && bytes[3] == EncodeChar(c)[3];
  }

  lemma FrontOfEncoded(c: char, rest: seq<Byte>)
    ensures DecodeFront(EncodeChar(c) + rest) == Some((c, |EncodeChar(c)|))
  {
    if c as int < 0x800 {
      ShortFront(c, rest);
    } else if c as int < 0x10000 {
      WideFront(c, rest);
    } else {
      AstralFront(c, rest);
    }
  }

  lemma {:induction false} DecodeUndoesEncode(s: string)
    ensures Decode(Encode(s)) == Some(s)
  {
    if s != "" {
      FrontOfEncoded(s[0], Encode(s[1..]));
      DecodeUndoesEncode(s[1..]);
      assert Encode(s) != [] && [s[0]] + s[1..] == s;
      assert (EncodeChar(s[0]) + Encode(s[1..]))[|EncodeChar(s[0])|..] == Encode(s[1..]);
    }
  }

  // ---------------------------------------------------------------------------------------
  // Unescaping
  // ---------------------------------------------------------------------------------------

  predicate IsHex(c: char) {
    '0' <= c <= '9' || 'a' <= c <= 'f' || 'A' <= c <= 'F'
  }

  function HexValue(c: char): (v: nat)
    requires IsHex(c)
    ensures v < 16
  {
    if '0' <= c <= '9' then c as int - '0' as int
    else if 'a' <= c <= 'f' then c as int - 'a' as int + 10
    else c as int - 'A' as int + 10
  }

  /** Both cases of the digits count from 0 to 15. */
  lemma HexDigitsRead(v: nat)
    requires v < 16
    ensures IsHex("0123456789abcdef"[v]) && HexValue("0123456789abcdef"[v]) == v
    ensures IsHex("0123456789ABCDEF"[v]) && HexValue("0123456789ABCDEF"[v]) == v
  {
  }

  /** The bytes a value stands for; a backslash at the very end is an error. */
  ghost function UnescapedBytes(value: string): (bytes: Option<seq<Byte>>)
    decreases |value|
  {
    if value == "" then Some([])
    else if value[0] != '\\' then Prepend(EncodeChar(value[0]), UnescapedBytes(value[1..]))
    else if |value| == 1 then None
    else if |value| >= 3 && IsHex(value[1]) && IsHex(value[2]) then
      Prepend([HexValue(value[1]) * 16 + HexValue(value[2])], UnescapedBytes(value[3..]))
    else Prepend(EncodeChar(value[1]), UnescapedBytes(value[2..]))
  }

  ghost function Prepend(front: seq<Byte>, rest: Option<seq<Byte>>): Option<seq<Byte>> {
    if rest.None? then None else Some(front + rest.value)
  }

  lemma PrependTwice(a: seq<Byte>, b: seq<Byte>, rest: Option<seq<Byte>>)
    ensures Prepend(a, Prepend(b, rest)) == Prepend(a + b, rest)
    ensures Prepend([], rest) == rest
  {
    if rest.Some? {
      assert a + (b + rest.value) == a + b + rest.value && [] + rest.value == rest.value;
    }
  }

  ghost function Unescaped(value: string): (text: Result<string, ()>) {
    match UnescapedBytes(value)
    case None => Err(())
    case Some(bytes) =>
      match Decode(bytes)
      case None => Err(())
      case Some(text) => Ok(text)
  }

  method UnescapeDnValue(value: string) returns (text: Result<string, ()>)
    ensures text == Unescaped(value)
  {
    var decoded: seq<Byte> := [];
    var index := 0;
    assert value[0..] == value;
    PrependTwice([], [], UnescapedBytes(value));
    while index < |value|
      invariant index <= |value|
      invariant UnescapedBytes(value) == Prepend(decoded, UnescapedBytes(value[index..]))
      decreases |value| - index
    {
      ghost var rest := value[index..];
      assert rest[0] == value[index] && rest[1..] == value[index + 1..];
      if value[index] != '\\' {
        PrependTwice(decoded, EncodeChar(value[index]), UnescapedBytes(value[index + 1..]));
        decoded := decoded + EncodeChar(value[index]);
        index := index + 1;
        continue;
      }
      if index + 1 >= |value| {
        return Err(());
      }
      assert rest[1] == value[index + 1] && rest[2..] == value[index + 2..];
      if index + 2 < |value| && IsHex(value[index + 1]) && IsHex(value[index + 2]) {
        assert rest[2] == value[index + 2] && rest[3..] == value[index + 3..];
        var byte: Byte := HexValue(value[index + 1]) * 16 + HexValue(value[index + 2]);
        PrependTwice(decoded, [byte], UnescapedBytes(value[index + 3..]));
        decoded := decoded + [byte];
        index := index + 3;
      } else {
        PrependTwice(decoded, EncodeChar(value[index + 1]), UnescapedBytes(value[index + 2..]));
        decoded := decoded + EncodeChar(value[index + 1]);
        index := index + 2;
      }
    }
    assert value[index..] == "";
    assert decoded + [] == decoded;
    assert UnescapedBytes(value) == Some(decoded);
    var result := Decode(decoded);
    match result
    case None => return Err(());
    case Some(t) => return Ok(t);
  }

  // ---------------------------------------------------------------------------------------
  // Every escaping
  // ---------------------------------------------------------------------------------------

  /** The characters a backslash may stand in front of. */
  const SPECIALS := {'"', '+', ',', ';', '<', '>', ' ', '#', '=', '\\'}

  /** How one character is written: as it is, behind a backslash, or byte by byte in hexadecimal. */
  datatype Choice = Literal | Escaped | HexPairs(digits: seq<(char, char)>)

  predicate Allowed(c: char, choice: Choice) {
    match choice
    case Literal => c != '\\'
    case Escaped => c in SPECIALS
    case HexPairs(digits) =>
      && |digits| == |EncodeChar(c)|
      && forall i :: 0 <= i < |digits| ==>
           IsHex(digits[i].0) && IsHex(digits[i].1)
               && HexValue(digits[i].0) * 16 + HexValue(digits[i].1) == EncodeChar(c)[i]
  }

  function WritePairs(digits: seq<(char, char)>): (text: string) {
    if digits == [] then "" else ['\\', digits[0].0, digits[0].1] + WritePairs(digits[1..])
  }

  function Write(c: char, choice: Choice): (text: string) {
    match choice
    case Literal => [c]
    case Escaped => ['\\', c]
    case HexPairs(digits) => WritePairs(digits)
  }

  function Escape(s: string, choices: seq<Choice>): (value: string)
    requires |s| == |choices|
  {
    if s == "" then "" else Write(s[0], choices[0]) + Escape(s[1..], choices[1..])
  }

  lemma {:induction false} PairsAreRead(digits: seq<(char, char)>, bytes: seq<Byte>, rest: string)
    requires |digits| == |bytes|
    requires forall i :: 0 <= i < |digits| ==>
               IsHex(digits[i].0) && IsHex(digits[i].1)
                   && HexValue(digits[i].0) * 16 + HexValue(digits[i].1) == bytes[i]
    ensures UnescapedBytes(WritePairs(digits) + rest) == Prepend(bytes, UnescapedBytes(rest))
  {
    if digits == [] {
      assert WritePairs(digits) + rest == rest;
      PrependTwice([], [], UnescapedBytes(rest));
    } else {
      PairsAreRead(digits[1..], bytes[1..], rest);
      PairIsRead(digits[0], WritePairs(digits[1..]) + rest);
      PrependTwice([bytes[0]], bytes[1..], UnescapedBytes(rest));
      assert WritePairs(digits) + rest == ['\\', digits[0].0, digits[0].1] + (WritePairs(digits[1..]) + rest);
      assert bytes == [bytes[0]] + bytes[1..];
    }
  }

  lemma PairIsRead(digits: (char, char), rest: string)
    requires IsHex(digits.0) && IsHex(digits.1)
    ensures UnescapedBytes(['\\', digits.0, digits.1] + rest)
            == Prepend([HexValue(digits.0) * 16 + HexValue(digits.1)], UnescapedBytes(rest))
  {
    var value := ['\\', digits.0, digits.1] + rest;
    assert value[3..] == rest;
  }

  lemma WrittenCharIsRead(c: char, choice: Choice, rest: string)
    requires Allowed(c, choice)
    ensures UnescapedBytes(Write(c, choice) + rest) == Prepend(EncodeChar(c), UnescapedBytes(rest))
  {
    var value := Write(c, choice) + rest;
    match choice
    case Literal =>
      assert value[1..] == rest;
    case Escaped =>
      assert value[2..] == rest && !IsHex(value[1]);
    case HexPairs(digits) =>
      PairsAreRead(digits, EncodeChar(c), rest);
  }

  lemma {:induction false} EscapedBytesAreRead(s: string, choices: seq<Choice>)
    requires |s| == |choices| && forall i :: 0 <= i < |s| ==> Allowed(s[i], choices[i])
    ensures UnescapedBytes(Escape(s, choices)) == Some(Encode(s))
  {
    if s != "" {
      WrittenCharIsRead(s[0], choices[0], Escape(s[1..], choices[1..]));
      EscapedBytesAreRead(s[1..], choices[1..]);
    }
  }

  /** Whatever way each character of a text is escaped, decoding the value returns the text. */
  lemma UnescapeUndoesEveryEscaping(s: string, choices: seq<Choice>)
    requires |s| == |choices| && forall i :: 0 <= i < |s| ==> Allowed(s[i], choices[i])
    ensures Unescaped(Escape(s, choices)) == Ok(s)
  {
    EscapedBytesAreRead(s, choices);
    DecodeUndoesEncode(s);
  }

  lemma {:induction false} DanglingBytes(s: string, choices: seq<Choice>)
    requires |s| == |choices| && forall i :: 0 <= i < |s| ==> Allowed(s[i], choices[i])
    ensures UnescapedBytes(Escape(s, choices) + "\\").None?
  {
    if s == "" {
      assert Escape(s, choices) + "\\" == "\\";
    } else {
      var rest := Escape(s[1..], choices[1..]) + "\\";
      WrittenCharIsRead(s[0], choices[0], rest);
      DanglingBytes(s[1..], choices[1..]);
      assert Escape(s, choices) + "\\" == Write(s[0], choices[0]) + rest;
    }
  }

  /** A backslash at the end that escapes nothing is refused, whatever stands before it. */
  lemma DanglingBackslashIsRefused(s: string, choices: seq<Choice>)
    requires |s| == |choices| && forall i :: 0 <= i < |s| ==> Allowed(s[i], choices[i])
    ensures Unescaped(Escape(s, choices) + "\\").Err?
  {
    DanglingBytes(s, choices);
  }
}
