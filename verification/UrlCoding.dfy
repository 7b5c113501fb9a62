/** `urlencode` and `to_hex` of `stringx.h`: percent-encoding (section 2.1 of RFC 3986), with a
    plus sign for the space. */
module UrlCoding {
  import opened CStrings

  const NUL := '\0'
  const HEX := "0123456789abcdef"

  /** A C character. */
  type cchar = c: char | c as int < 0x100 witness 'a'

  function HexValue(digit: char): (value: int) {
    if '0' <= digit <= '9' then digit as int - '0' as int
    else if 'a' <= digit <= 'f' then digit as int - 'a' as int + 10
    else -1
  }

  /** `to_hex`: the low four bits as a lower-case digit. */
  function ToHex(code: nat): (digit: char)
    ensures '0' <= digit <= '9' || 'a' <= digit <= 'f'
    ensures HexValue(digit) == code % 16
  {
    HEX[code % 16]
  }

  /** The unreserved characters (section 2.3 of RFC 3986): `isalnum` and four more. */
  predicate Unreserved(c: char) {
    '0' <= c <= '9' || 'a' <= c <= 'z' || 'A' <= c <= 'Z' || c == '-' || c == '_' || c == '.' || c == '~'
  }

  function EncodeChar(c: cchar): (code: string)
    ensures |code| == if Unreserved(c) || c == ' ' then 1 else 3
  {
    if Unreserved(c) then [c]
    else if c == ' ' then ['+']
    else ['%', ToHex(c as int / 16), ToHex(c as int % 16)]
  }

  function Encode(s: seq<cchar>): (text: string) {
    if s == [] then [] else EncodeChar(s[0]) + Encode(s[1..])
  }

  /** Reads encoded text back; what is not the encoding of anything is skipped. */
  function Decode(text: string): (s: string) {
    if text == [] then []
    else if text[0] == '+' then [' '] + Decode(text[1..])
    else if text[0] != '%' then [text[0]] + Decode(text[1..])
    else if |text| >= 3 && HexValue(text[1]) >= 0 && HexValue(text[2]) >= 0 then
      [(16 * HexValue(text[1]) + HexValue(text[2])) as char] + Decode(text[3..])
    else Decode(text[1..])
  }

  lemma DecodeTriple(h: char, l: char, rest: string)
    requires HexValue(h) >= 0 && HexValue(l) >= 0
    ensures Decode(['%', h, l] + rest) == [(16 * HexValue(h) + HexValue(l)) as char] + Decode(rest)
  {
    assert (['%', h, l] + rest)[3..] == rest;
  }

  lemma DecodePlain(c: char, rest: string)
    requires c != '%'
    ensures Decode([c] + rest) == [if c == '+' then ' ' else c] + Decode(rest)
  {
    assert ([c] + rest)[1..] == rest;
  }

  /** The two digits of an escape put together again. */
  lemma HexDigits(code: nat)
    requires code < 0x100
    ensures var h, l := ToHex(code / 16), ToHex(code % 16);
            HexValue(h) >= 0 && HexValue(l) >= 0 && 16 * HexValue(h) + HexValue(l) == code
  {
  }

  lemma EncodeCases(c: cchar)
    ensures if Unreserved(c) then EncodeChar(c) == [c] && c != '%' && c != '+'
            else if c == ' ' then EncodeChar(c) == ['+']
            else EncodeChar(c) == ['%', ToHex(c as int / 16), ToHex(c as int % 16)]
  {
  }

  lemma DecodeOne(c: cchar, rest: string)
    ensures Decode(EncodeChar(c) + rest) == [c] + Decode(rest)
  {
    hide *;
    EncodeCases(c);
    if Unreserved(c) {
      DecodePlain(c, rest);
    } else if c == ' ' {
      DecodePlain('+', rest);
    } else {
      HexDigits(c as int);
      DecodeTriple(ToHex(c as int / 16), ToHex(c as int % 16), rest);
    }
  }

  /** Encoding is undone by decoding, for every string. */
  lemma {:induction false} DecodeEncode(s: seq<cchar>)
    ensures Decode(Encode(s)) == s
  {
    if s != [] {
      var c, rest := s[0], Encode(s[1..]);
      DecodeEncode(s[1..]);
      DecodeOne(c, rest);
      assert [c] + s[1..] == s;
    }
  }

  /** Different strings have different encodings. */
  lemma EncodeInjective(a: seq<cchar>, b: seq<cchar>)
    requires Encode(a) == Encode(b)
    ensures a == b
  {
    DecodeEncode(a);
    DecodeEncode(b);
  }

  lemma {:induction false} EncodeConcat(a: seq<cchar>, b: seq<cchar>)
    ensures Encode(a + b) == Encode(a) + Encode(b)
  {
    if a == [] {
      assert a + b == b;
    } else {
      assert (a + b)[1..] == a[1..] + b;
      EncodeConcat(a[1..], b);
    }
  }

  lemma HexDigitIs(code: nat)
    requires code < 16
    ensures ToHex(code) as int == if code < 10 then 48 + code else 87 + code
  {
  }

  /** The code of every character, in numbers: digits, letters and the characters -._~ stand for
      themselves, the space is a plus sign (43), and everything else is a percent sign (37) and two
      lower-case hexadecimal digits, the higher one first. */
  lemma CharCode(c: cchar)
    ensures var k := c as int;
            var high, low := k / 16, k % 16;
            EncodeChar(c) ==
              if 48 <= k <= 57 || 65 <= k <= 90 || 97 <= k <= 122 || k in {45, 46, 95, 126} then [c]
              else if k == 32 then [43 as char]
              else [37 as char,
                    (if high < 10 then 48 + high else 87 + high) as char,
                    (if low < 10 then 48 + low else 87 + low) as char]
  {
    HexDigitIs(c as int / 16);
    HexDigitIs(c as int % 16);
  }

  /** The characters of encoded text. */
  lemma {:induction false} EncodeAlphabet(s: seq<cchar>)
    ensures forall i :: 0 <= i < |Encode(s)| ==>
              var k := Encode(s)[i] as int;
              48 <= k <= 57 || 65 <= k <= 90 || 97 <= k <= 122 || k in {37, 43, 45, 46, 95, 126}
  {
    if s != [] {
      EncodeAlphabet(s[1..]);
      CharCode(s[0]);
    }
  }

  /** Encoded text is made of unreserved characters, plus signs and percent triples with
      lower-case digits, and every percent sign starts such a triple. */
  predicate IsEncoded(text: string) {
    text == [] ||
    if text[0] == '%' then
      |text| >= 3 && 0 <= HexValue(text[1]) && 0 <= HexValue(text[2]) && IsEncoded(text[3..])
    else
      (Unreserved(text[0]) || text[0] == '+') && IsEncoded(text[1..])
  }

  lemma IsEncodedOne(c: cchar, rest: string)
    requires IsEncoded(rest)
    ensures IsEncoded(EncodeChar(c) + rest)
  {
    var text := EncodeChar(c) + rest;
    assert text[|EncodeChar(c)|..] == rest;
  }

  function Escaped(s: seq<cchar>): (count: nat) {
    if s == [] then 0 else (if Unreserved(s[0]) || s[0] == ' ' then 0 else 1) + Escaped(s[1..])
  }

  lemma {:induction false} EncodeShape(s: seq<cchar>)
    ensures IsEncoded(Encode(s)) && |Encode(s)| == |s| + 2 * Escaped(s) <= 3 * |s|
    ensures NUL !in Encode(s)
  {
    if s != [] {
      EncodeShape(s[1..]);
      IsEncodedOne(s[0], Encode(s[1..]));
      assert NUL !in EncodeChar(s[0]);
    }
  }

  /** `done` is what the first i characters of `s` encode to. */
  ghost predicate EncodedSoFar(s: seq<cchar>, i: nat, done: string)
    requires i <= |s|
  {
    done + Encode(s[i..]) == Encode(s)
  }

  lemma EncodeStart(s: seq<cchar>)
    ensures EncodedSoFar(s, 0, [])
  {
    assert s[0..] == s && [] + Encode(s) == Encode(s);
  }

  lemma EncodeStep(s: seq<cchar>, i: nat, done: string)
    requires i < |s| && EncodedSoFar(s, i, done)
    ensures EncodedSoFar(s, i + 1, done + EncodeChar(s[i]))
  {
    assert s[i..][1..] == s[i + 1..];
    assert done + EncodeChar(s[i]) + Encode(s[i + 1..]) == done + (EncodeChar(s[i]) + Encode(s[i + 1..]));
  }

  lemma EncodeEnd(s: seq<cchar>, done: string)
    requires EncodedSoFar(s, |s|, done)
    ensures done == Encode(s)
  {
    assert s[|s|..] == [];
    assert Encode([]) == [] && done + [] == done;
  }

  /** The body of the loop: writes the code of one character and moves on behind it. */
  method PutChar(c: cchar, buf: array<char>, pbuf: nat) returns (next: nat)
    requires pbuf + 3 <= buf.Length
    modifies buf
    ensures pbuf < next <= pbuf + 3 && buf[..next] == old(buf[..pbuf]) + EncodeChar(c)
  {
    if Unreserved(c) {
      buf[pbuf] := c;
      next := pbuf + 1;
    } else if c == ' ' {
      buf[pbuf] := '+';
      next := pbuf + 1;
    } else {
      buf[pbuf] := '%';
      buf[pbuf + 1] := ToHex(c as int / 16);
      buf[pbuf + 2] := ToHex(c as int % 16);
      next := pbuf + 3;
    }
  }

  lemma IntoText(buf: array<char>, s: string)
    requires |s| < buf.Length && buf[..|s|] == s && buf[|s|] == NUL && NUL !in s
    ensures Text(buf, s, NUL)
  {
  }

  /** `urlencode`. The buffer of 3n + 1 characters is never left. */
  method UrlEncode(str: seq<cchar>) returns (buf: array<char>)
    requires NUL !in str
    ensures fresh(buf) && buf.Length == 3 * |str| + 1 && Text(buf, Encode(str), NUL)
  {
    hide *;
    EncodeShape(str);
    EncodeStart(str);
    buf := new char[3 * |str| + 1];
    var pstr: nat, pbuf: nat := 0, 0;
    ghost var done: string := [];
    while pstr < |str|
      invariant pstr <= |str| && pbuf <= 3 * pstr
      invariant buf[..pbuf] == done && EncodedSoFar(str, pstr, done)
    {
      EncodeStep(str, pstr, done);
      done := done + EncodeChar(str[pstr]);
      pbuf := PutChar(str[pstr], buf, pbuf);
      pstr := pstr + 1;
    }
    EncodeEnd(str, done);
    buf[pbuf] := NUL;
    IntoText(buf, done);
  }
}
