/**
 * The base64 encoding of section 4 of RFC 4648, as `btoa` applies it to a
 * string whose characters are all Latin-1 (each character one byte), and
 * the decoding that undoes it.
 */
module Base64 {
  import opened Wrappers

  type Byte = x: int | 0 <= x < 256

  /** The character of a 6-bit value in the base64 alphabet (Table 1 of RFC 4648). */
  function Symbol(i: int): (c: char)
    requires 0 <= i < 64
    ensures c != '='
  {
    if i < 26 then ('A' as int + i) as char
    else if i < 52 then ('a' as int + i - 26) as char
    else if i < 62 then ('0' as int + i - 52) as char
    else if i == 62 then '+'
    else '/'
  }

  /** The 6-bit value of a base64 alphabet character; `None` for anything else, padding included. */
  function SymbolValue(c: char): (r: Option<int>)
    ensures r.Some? ==> 0 <= r.value < 64 && Symbol(r.value) == c
  {
    if 'A' <= c <= 'Z' then Some(c as int - 'A' as int)
    else if 'a' <= c <= 'z' then Some(c as int - 'a' as int + 26)
    else if '0' <= c <= '9' then Some(c as int - '0' as int + 52)
    else if c == '+' then Some(62)
    else if c == '/' then Some(63)
    else None
  }

  /** Reading a symbol back gives its value. */
  lemma SymbolValueOfSymbol(i: int)
    requires 0 <= i < 64
    ensures SymbolValue(Symbol(i)) == Some(i)
  {
  }

  /** Three bytes as four symbols: the 24 bits cut into four 6-bit groups, most significant first. */
  function EncodeBlock(a: Byte, b: Byte, c: Byte): string {
    [Symbol(a / 4), Symbol((a % 4) * 16 + b / 16), Symbol((b % 16) * 4 + c / 64), Symbol(c % 64)]
  }

  /**
   * The encoding: full three-byte groups, then a final one or two bytes
   * padded with zero bits and `=` to four characters.
   */
  function Encode(bytes: seq<Byte>): (r: string)
    ensures |r| == 4 * ((|bytes| + 2) / 3)
    decreases |bytes|
  {
    if |bytes| >= 3 then EncodeBlock(bytes[0], bytes[1], bytes[2]) + Encode(bytes[3..])
    else if |bytes| == 2 then
      [Symbol(bytes[0] / 4), Symbol((bytes[0] % 4) * 16 + bytes[1] / 16), Symbol((bytes[1] % 16) * 4), '=']
    else if |bytes| == 1 then [Symbol(bytes[0] / 4), Symbol((bytes[0] % 4) * 16), '=', '=']
    else []
  }

  /** The three bytes four 6-bit values stand for. */
  function DecodeBlock(i0: int, i1: int, i2: int, i3: int): seq<Byte>
    requires 0 <= i0 < 64 && 0 <= i1 < 64 && 0 <= i2 < 64 && 0 <= i3 < 64
  {
    [i0 * 4 + i1 / 16, (i1 % 16) * 16 + i2 / 4, (i2 % 4) * 64 + i3]
  }

  /** The decoding of a padded base64 text; `None` for text that is not one. */
  function Decode(s: string): Option<seq<Byte>>
    decreases |s|
  {
    if s == [] then Some([])
    else if |s| < 4 then None
    else
      var v0, v1, v2, v3 := SymbolValue(s[0]), SymbolValue(s[1]), SymbolValue(s[2]), SymbolValue(s[3]);
      if v0.None? || v1.None? then None
      else if |s| == 4 && s[2] == '=' && s[3] == '=' then
        Some([v0.value * 4 + v1.value / 16])
      else if v2.None? then None
      else if |s| == 4 && s[3] == '=' then
        Some([v0.value * 4 + v1.value / 16, (v1.value % 16) * 16 + v2.value / 4])
      else if v3.None? then None
      else match Decode(s[4..])
        case None => None
        case Some(rest) => Some(DecodeBlock(v0.value, v1.value, v2.value, v3.value) + rest)
  }

  /** Decoding one encoded block gives its three bytes back. */
  lemma DecodeEncodeBlock(a: Byte, b: Byte, c: Byte)
    ensures DecodeBlock(a / 4, (a % 4) * 16 + b / 16, (b % 16) * 4 + c / 64, c % 64) == [a, b, c]
  {
  }

  /** Decoding an encoded block followed by more text decodes the rest after the three bytes. */
  lemma DecodeBlockThen(a: Byte, b: Byte, c: Byte, t: string)
    ensures Decode(EncodeBlock(a, b, c) + t) ==
      (if Decode(t).Some? then Some([a, b, c] + Decode(t).value) else None)
  {
    var s := EncodeBlock(a, b, c) + t;
    SymbolValueOfSymbol(a / 4);
    SymbolValueOfSymbol((a % 4) * 16 + b / 16);
    SymbolValueOfSymbol((b % 16) * 4 + c / 64);
    SymbolValueOfSymbol(c % 64);
    DecodeEncodeBlock(a, b, c);
    assert s[4..] == t;
  }

  /** The final group of two bytes decodes back to them. */
  lemma DecodeFinalPair(a: Byte, b: Byte)
    ensures Decode([Symbol(a / 4), Symbol((a % 4) * 16 + b / 16), Symbol((b % 16) * 4), '=']) == Some([a, b])
  {
    SymbolValueOfSymbol(a / 4);
    SymbolValueOfSymbol((a % 4) * 16 + b / 16);
    SymbolValueOfSymbol((b % 16) * 4);
    assert a / 4 * 4 + ((a % 4) * 16 + b / 16) / 16 == a;
    assert (((a % 4) * 16 + b / 16) % 16) * 16 + ((b % 16) * 4) / 4 == b;
  }

  /** The final single byte decodes back to it. */
  lemma DecodeFinalByte(a: Byte)
    ensures Decode([Symbol(a / 4), Symbol((a % 4) * 16), '=', '=']) == Some([a])
  {
    SymbolValueOfSymbol(a / 4);
    SymbolValueOfSymbol((a % 4) * 16);
    assert a / 4 * 4 + ((a % 4) * 16) / 16 == a;
  }

  /** Decoding undoes encoding: the encoding loses nothing. */
  lemma {:induction false} DecodeEncode(bytes: seq<Byte>)
    ensures Decode(Encode(bytes)) == Some(bytes)
    decreases |bytes|
  {
    if |bytes| >= 3 {
      DecodeEncode(bytes[3..]);
      DecodeBlockThen(bytes[0], bytes[1], bytes[2], Encode(bytes[3..]));
      assert bytes == [bytes[0], bytes[1], bytes[2]] + bytes[3..];
    } else if |bytes| == 2 {
      DecodeFinalPair(bytes[0], bytes[1]);
      assert bytes == [bytes[0], bytes[1]];
    } else if |bytes| == 1 {
      DecodeFinalByte(bytes[0]);
      assert bytes == [bytes[0]];
    }
  }

  /** Encoding is one-to-one: different byte strings never share an encoding. */
  lemma EncodeInjective(x: seq<Byte>, y: seq<Byte>)
    requires Encode(x) == Encode(y)
    ensures x == y
  {
    DecodeEncode(x);
    DecodeEncode(y);
  }

  /** Every character is an alphabet symbol, except for `=` padding in the last two places. */
  predicate PaddedSymbols(e: string) {
    forall k :: 0 <= k < |e| ==> SymbolValue(e[k]).Some? || (e[k] == '=' && k >= |e| - 2)
  }

  /** Symbols in front of padded text keep it padded. */
  lemma PrependSymbols(block: string, rest: string)
    requires forall k :: 0 <= k < |block| ==> SymbolValue(block[k]).Some?
    requires PaddedSymbols(rest)
    ensures PaddedSymbols(block + rest)
  {
    var e := block + rest;
    forall k | 0 <= k < |e|
      ensures SymbolValue(e[k]).Some? || (e[k] == '=' && k >= |e| - 2)
    {
      if k >= |block| {
        assert e[k] == rest[k - |block|];
      }
    }
  }

  /** Every encoded character is an alphabet symbol, except for `=` padding in the last two places. */
  lemma {:induction false} EncodeAlphabet(bytes: seq<Byte>)
    ensures PaddedSymbols(Encode(bytes))
    decreases |bytes|
  {
    if |bytes| >= 3 {
      EncodeAlphabet(bytes[3..]);
      var block := EncodeBlock(bytes[0], bytes[1], bytes[2]);
      forall k | 0 <= k < 4 ensures SymbolValue(block[k]).Some? {
        if k == 0 { SymbolValueOfSymbol(bytes[0] / 4); }
        else if k == 1 { SymbolValueOfSymbol((bytes[0] % 4) * 16 + bytes[1] / 16); }
        else if k == 2 { SymbolValueOfSymbol((bytes[1] % 16) * 4 + bytes[2] / 64); }
        else { SymbolValueOfSymbol(bytes[2] % 64); }
      }
      PrependSymbols(block, Encode(bytes[3..]));
    } else if |bytes| == 2 {
      SymbolValueOfSymbol(bytes[0] / 4);
      SymbolValueOfSymbol((bytes[0] % 4) * 16 + bytes[1] / 16);
      SymbolValueOfSymbol((bytes[1] % 16) * 4);
    } else if |bytes| == 1 {
      SymbolValueOfSymbol(bytes[0] / 4);
      SymbolValueOfSymbol((bytes[0] % 4) * 16);
    }
  }

  /** `btoa(s)`: the base64 of the string's character codes; a character above 255 makes it throw. */
  function Btoa(s: string): (r: Result<string>)
    ensures r.Success? <==> forall k :: 0 <= k < |s| ==> s[k] as int < 256
    ensures r.Success? ==> |r.value| == 4 * ((|s| + 2) / 3)
  {
    if forall k :: 0 <= k < |s| ==> s[k] as int < 256 then
      Success(Encode(seq(|s|, k requires 0 <= k < |s| => s[k] as int as Byte)))
    else Failure("InvalidCharacterError")
  }

  /** The bytes `btoa` encodes are the string's character codes, so decoding gives the string back. */
  lemma BtoaRoundTrip(s: string)
    requires Btoa(s).Success?
    ensures var d := Decode(Btoa(s).value);
      d.Some? && |d.value| == |s| && forall k :: 0 <= k < |s| ==> d.value[k] == s[k] as int
  {
    DecodeEncode(seq(|s|, k requires 0 <= k < |s| => s[k] as int as Byte));
  }
}
