/** The Base64 functions of `stringx.h`. Clear text is a string of bytes, `unsigned char`;
    encoded text is a string of characters. */
module Base64 {
  import opened CStrings

  const UPPER: string := "ABCDEFGHIJKLMNOPQRSTUVWXYZ"
  const LOWER: string := "abcdefghijklmnopqrstuvwxyz"
  const DIGITS: string := "0123456789"

  /** The array `b64`. */
  const B64: string := UPPER + LOWER + DIGITS + "+/"

  const NUL := '\0'

  lemma UpperAt(k: nat)
    requires k < 26
    ensures UPPER[k] as int == 65 + k
  {
  }

  lemma AlphabetAt(k: nat)
    requires k < 64
    ensures |B64| == 64
    ensures B64[k] as int ==
            if k < 26 then 65 + k else if k < 52 then 71 + k else if k < 62 then k - 4 else if k == 62 then 43 else 47
  {
    if k < 26 {
      UpperAt(k);
    } else if k < 52 {
    } else {
    }
  }

  /** `strchr`, as an index; -1 for NULL. */
  function StrChr(s: string, c: char): (p: int)
    ensures -1 <= p < |s|
    ensures if p == -1 then c !in s else s[p] == c && c !in s[..p]
  {
    if s == [] then -1
    else if s[0] == c then 0
    else
      var p := StrChr(s[1..], c);
      if p == -1 then -1 else p + 1
  }

  /** No character occurs twice in the alphabet, so looking up a digit finds its value. */
  lemma StrChrAt(k: nat)
    requires k < 64
    ensures |B64| == 64 && StrChr(B64, B64[k]) == k
    ensures B64[k] != '=' && B64[k] != NUL
  {
    AlphabetAt(k);
    hide StrChr, B64, UPPER, LOWER, DIGITS;
    var p := StrChr(B64, B64[k]);
    assert p != -1;
    AlphabetAt(p);
  }

  lemma StrChrDigit(v: bv8)
    requires v < 64
    ensures |B64| == 64 && v as int < 64
    ensures StrChr(B64, B64[v as int]) == v as int
    ensures B64[v as int] != '=' && B64[v as int] != NUL
  {
    hide *;
    StrChrAt(v as int);
  }

  // ---------- encoding

  function Digit(v: bv8): (c: char)
    requires v < 64
  {
    AlphabetAt(0);
    B64[v as int]
  }

  /** The digits in numbers, as in table 1 of RFC 4648: A to Z, a to z, 0 to 9, + and /. */
  lemma DigitIs(v: bv8)
    requires v < 64
    ensures var k := v as int;
            Digit(v) as int ==
            if k < 26 then 65 + k else if k < 52 then 71 + k else if k < 62 then k - 4 else if k == 62 then 43 else 47
  {
    hide B64, UPPER, LOWER, DIGITS;
    AlphabetAt(v as int);
  }

  /** `encodeblock`: three bytes, of which `len` are there, become four characters. */
  function EncodeBlock(a: bv8, b: bv8, c: bv8, len: nat): (block: string)
    ensures |block| == 4
  {
    [Digit(a >> 2),
     Digit(((a & 0x03) << 4) | ((b & 0xf0) >> 4)),
     if len > 1 then Digit(((b & 0x0f) << 2) | ((c & 0xc0) >> 6)) else '=',
     if len > 2 then Digit(c & 0x3f) else '=']
  }

  /** Section 4 of RFC 4648: the 24 bits of three bytes, taken as four groups of six. */
  lemma BlockIsGroups(a: bv8, b: bv8, c: bv8)
    ensures var group := (a as bv24 << 16) | (b as bv24 << 8) | c as bv24;
            EncodeBlock(a, b, c, 3) ==
            [Digit(((group >> 18) & 0x3f) as bv8), Digit(((group >> 12) & 0x3f) as bv8),
             Digit(((group >> 6) & 0x3f) as bv8), Digit((group & 0x3f) as bv8)]
  {
  }

  function Encode(s: seq<bv8>): (text: string) {
    if s == [] then ""
    else if |s| == 1 then EncodeBlock(s[0], 0, 0, 1)
    else if |s| == 2 then EncodeBlock(s[0], s[1], 0, 2)
    else EncodeBlock(s[0], s[1], s[2], 3) + Encode(s[3..])
  }

  lemma Digits(v: bv8, c: char)
    requires v < 64
    requires var k := v as int;
             c as int ==
             if k < 26 then 65 + k else if k < 52 then 71 + k else if k < 62 then k - 4 else if k == 62 then 43 else 47
    ensures Digit(v) == c
  {
    DigitIs(v);
  }

  /** Test vectors from section 10 of RFC 4648: "f", "fo", "foo" and "foobar". */
  lemma TestVectors()
    ensures Encode([102]) == "Zg==" && Encode([102, 111]) == "Zm8=" && Encode([102, 111, 111]) == "Zm9v"
    ensures Encode([102, 111, 111, 98, 97, 114]) == "Zm9vYmFy"
  {
    hide Digit;
    Digits(25, 'Z');
    Digits(32, 'g');
    Digits(38, 'm');
    Digits(60, '8');
    Digits(61, '9');
    Digits(47, 'v');
    Digits(24, 'Y');
    Digits(5, 'F');
    Digits(50, 'y');
    assert EncodeBlock(102, 0, 0, 1) == "Zg==" && EncodeBlock(102, 111, 0, 2) == "Zm8=";
    assert EncodeBlock(102, 111, 111, 3) == "Zm9v" && EncodeBlock(98, 97, 114, 3) == "YmFy";
    var s: seq<bv8> := [102, 111, 111, 98, 97, 114];
    assert s[3..] == [98, 97, 114] && s[3..][3..] == [];
    assert [102 as bv8, 111, 111][3..] == [];
  }

  // ---------- decoding

  type Four = q: seq<bv8> | |q| == 4 witness [0, 0, 0, 0]

  const ZEROS: Four := [0, 0, 0, 0]

  /** What `decodeblock` appends: the three bytes it computes, up to the first that is zero. */
  function DecodeBlock(q: Four): (bytes: seq<bv8>)
    ensures |bytes| <= 3 && 0 !in bytes
  {
    UpTo([(q[0] << 2) | (q[1] >> 4), (q[1] << 4) | (q[2] >> 2), (q[2] << 6) | (q[3] >> 0)], 0)
  }

  /** The variables of the decoding loop. */
  datatype State = State(digits: Four, phase: nat, out: seq<bv8>)

  /** One turn of the loop on a character other than the padding. */
  function Step(st: State, c: char): (next: State)
    requires st.phase < 4
    ensures next.phase < 4
  {
    var p := StrChr(B64, c);
    if p == -1 then st
    else
      AlphabetAt(0);
      var digits := st.digits[st.phase := p as bv8];
      if st.phase == 3 then State(ZEROS, 0, st.out + DecodeBlock(digits))
      else State(digits, st.phase + 1, st.out)
  }

  /** The loop: it ends at the end of the text or at the first padding character. */
  function Run(st: State, text: string): (out: seq<bv8>)
    requires st.phase < 4
    decreases |text|
  {
    if text == [] then st.out
    else if text[0] == '=' then st.out + DecodeBlock(st.digits)
    else Run(Step(st, text[0]), text[1..])
  }

  /** `base64_decode`; `garbage` is what the array `in` happens to hold at the start. */
  function Decode(garbage: Four, text: string): (out: seq<bv8>) {
    Run(State(garbage, 0, []), text)
  }

  // ---------- round trip

  lemma RunDigit(st: State, v: bv8, rest: string)
    requires st.phase < 4 && v < 64
    ensures Run(st, [Digit(v)] + rest) ==
            var digits := st.digits[st.phase := v];
            if st.phase == 3 then Run(State(ZEROS, 0, st.out + DecodeBlock(digits)), rest)
            else Run(State(digits, st.phase + 1, st.out), rest)
  {
    StrChrDigit(v);
    assert ([Digit(v)] + rest)[1..] == rest;
  }

  /** Four digits in a row are one block. */
  lemma RunDigits(st: State, v: Four, rest: string)
    requires st.phase == 0 && forall i :: 0 <= i < 4 ==> v[i] < 64
    ensures Run(st, [Digit(v[0]), Digit(v[1]), Digit(v[2]), Digit(v[3])] + rest)
            == Run(State(ZEROS, 0, st.out + DecodeBlock(v)), rest)
  {
    hide *;
    var d := st.digits[0 := v[0]];
    var e := d[1 := v[1]];
    var f := e[2 := v[2]];
    var t3 := [Digit(v[3])] + rest;
    var t2 := [Digit(v[2])] + t3;
    var t1 := [Digit(v[1])] + t2;
    assert [Digit(v[0]), Digit(v[1]), Digit(v[2]), Digit(v[3])] + rest == [Digit(v[0])] + t1;
    RunDigit(st, v[0], t1);
    RunDigit(State(d, 1, st.out), v[1], t2);
    RunDigit(State(e, 2, st.out), v[2], t3);
    RunDigit(State(f, 3, st.out), v[3], rest);
    assert f[3 := v[3]] == v;
  }

  /** The six-bit groups `encodeblock` cuts three bytes into. */
  function Groups(a: bv8, b: bv8, c: bv8): (v: Four)
    ensures forall i :: 0 <= i < 4 ==> v[i] < 64
  {
    [a >> 2, ((a & 0x03) << 4) | ((b & 0xf0) >> 4), ((b & 0x0f) << 2) | ((c & 0xc0) >> 6), c & 0x3f]
  }

  lemma UpToThree(a: bv8, b: bv8, c: bv8)
    ensures UpTo([a, b, c], 0)
            == if a == 0 then [] else if b == 0 then [a] else if c == 0 then [a, b] else [a, b, c]
  {
    assert [a, b, c][1..] == [b, c] && [b, c][1..] == [c] && [c][1..] == [];
  }

  lemma DecodeBytes(q: Four, a: bv8, b: bv8, c: bv8)
    requires (q[0] << 2) | (q[1] >> 4) == a
    requires (q[1] << 4) | (q[2] >> 2) == b
    requires (q[2] << 6) | (q[3] >> 0) == c
    ensures DecodeBlock(q)
            == if a == 0 then [] else if b == 0 then [a] else if c == 0 then [a, b] else [a, b, c]
  {
    UpToThree(a, b, c);
  }

  /** `decodeblock` puts the groups together again. */
  lemma DecodeThree(a: bv8, b: bv8, c: bv8)
    requires a != 0 && b != 0 && c != 0
    ensures DecodeBlock(Groups(a, b, c)) == [a, b, c]
  {
    DecodeBytes(Groups(a, b, c), a, b, c);
  }

  /** In general the bytes from the first zero on are lost: `strncat` stops there. */
  lemma DecodeGroups(a: bv8, b: bv8, c: bv8)
    ensures DecodeBlock(Groups(a, b, c))
            == if a == 0 then [] else if b == 0 then [a] else if c == 0 then [a, b] else [a, b, c]
  {
    DecodeBytes(Groups(a, b, c), a, b, c);
  }

  /** With one digit missing, what the padding leaves in its place takes part. */
  lemma DecodeTwo(a: bv8, b: bv8, q: Four)
    requires a != 0 && b != 0 && q == Groups(a, b, 0)[3 := q[3]]
    ensures DecodeBlock(q) == [a, b] <==> q[3] == 0
  {
    assert q[0] == Groups(a, b, 0)[0] && q[1] == Groups(a, b, 0)[1] && q[2] == Groups(a, b, 0)[2];
    DecodeBytes(q, a, b, q[3]);
  }

  lemma ShiftTwo(x: bv8)
    ensures x >> 2 == 0 <==> x < 4
  {
  }

  lemma DecodeOne(a: bv8, q: Four)
    requires a != 0 && q == Groups(a, 0, 0)[2 := q[2]][3 := q[3]]
    ensures DecodeBlock(q) == [a] <==> q[2] < 4
  {
    assert q[0] == Groups(a, 0, 0)[0] && q[1] == Groups(a, 0, 0)[1];
    DecodeBytes(q, a, q[2] >> 2, (q[2] << 6) | (q[3] >> 0));
    ShiftTwo(q[2]);
  }

  lemma RunPad(st: State, rest: string)
    requires st.phase < 4
    ensures Run(st, ['='] + rest) == st.out + DecodeBlock(st.digits)
  {
  }

  lemma BlockDigits(a: bv8, b: bv8, c: bv8, len: nat, v: Four)
    requires v == Groups(a, b, c)
    ensures EncodeBlock(a, b, c, len)
            == [Digit(v[0]), Digit(v[1]), if len > 1 then Digit(v[2]) else '=', if len > 2 then Digit(v[3]) else '=']
  {
  }

  lemma EncodeCases(s: seq<bv8>)
    ensures s == [] ==> Encode(s) == []
    ensures |s| == 1 ==> Encode(s) == EncodeBlock(s[0], 0, 0, 1)
    ensures |s| == 2 ==> Encode(s) == EncodeBlock(s[0], s[1], 0, 2)
    ensures |s| > 2 ==> Encode(s) == EncodeBlock(s[0], s[1], s[2], 3) + Encode(s[3..])
  {
    hide EncodeBlock;
  }

  lemma EncodeOne(s: seq<bv8>, v: Four)
    requires |s| == 1 && v == Groups(s[0], 0, 0)
    ensures Encode(s) == [Digit(v[0])] + ([Digit(v[1])] + (['='] + ['=']))
  {
    hide *;
    EncodeCases(s);
    BlockDigits(s[0], 0, 0, 1, v);
  }

  lemma EncodeTwo(s: seq<bv8>, v: Four)
    requires |s| == 2 && v == Groups(s[0], s[1], 0)
    ensures Encode(s) == [Digit(v[0])] + ([Digit(v[1])] + ([Digit(v[2])] + (['='] + [])))
  {
    hide *;
    EncodeCases(s);
    BlockDigits(s[0], s[1], 0, 2, v);
  }

  lemma EncodeMore(s: seq<bv8>, v: Four)
    requires |s| >= 3 && v == Groups(s[0], s[1], s[2])
    ensures Encode(s) == [Digit(v[0]), Digit(v[1]), Digit(v[2]), Digit(v[3])] + Encode(s[3..])
  {
    BlockDigits(s[0], s[1], s[2], 3, v);
  }

  lemma SameTail(out: seq<bv8>, x: seq<bv8>, y: seq<bv8>)
    ensures out + x == out + y <==> x == y
  {
    if out + x == out + y {
      assert x == (out + x)[|out|..] && y == (out + y)[|out|..];
    }
  }

  /** One byte in the last block: the two digits that are missing are taken from `q`. */
  lemma RunLastOne(q: Four, out: seq<bv8>, s: seq<bv8>)
    requires |s| == 1 && s[0] != 0
    ensures Run(State(q, 0, out), Encode(s)) == out + s <==> q[2] < 4
  {
    hide *;
    var v := Groups(s[0], 0, 0);
    var q2 := q[0 := v[0]][1 := v[1]];
    assert Run(State(q, 0, out), Encode(s)) == out + DecodeBlock(q2) by {
      EncodeOne(s, v);
      RunDigit(State(q, 0, out), v[0], [Digit(v[1])] + (['='] + ['=']));
      RunDigit(State(q[0 := v[0]], 1, out), v[1], ['='] + ['=']);
      RunPad(State(q2, 2, out), ['=']);
    }
    assert q2 == v[2 := q[2]][3 := q[3]];
    DecodeOne(s[0], q2);
    assert s == [s[0]];
    SameTail(out, DecodeBlock(q2), s);
  }

  /** Two bytes in the last block. */
  lemma RunLastTwo(q: Four, out: seq<bv8>, s: seq<bv8>)
    requires |s| == 2 && s[0] != 0 && s[1] != 0
    ensures Run(State(q, 0, out), Encode(s)) == out + s <==> q[3] == 0
  {
    hide *;
    var v := Groups(s[0], s[1], 0);
    var q1 := q[0 := v[0]];
    var q2 := q1[1 := v[1]];
    var q3 := q2[2 := v[2]];
    assert Run(State(q, 0, out), Encode(s)) == out + DecodeBlock(q3) by {
      EncodeTwo(s, v);
      RunDigit(State(q, 0, out), v[0], [Digit(v[1])] + ([Digit(v[2])] + (['='] + [])));
      RunDigit(State(q1, 1, out), v[1], [Digit(v[2])] + (['='] + []));
      RunDigit(State(q2, 2, out), v[2], ['='] + []);
      RunPad(State(q3, 3, out), []);
    }
    assert q3 == v[3 := q[3]];
    DecodeTwo(s[0], s[1], q3);
    assert s == [s[0], s[1]];
    SameTail(out, DecodeBlock(q3), s);
  }

  /** A full block in front: whatever `in` held before is overwritten, and afterwards it is zero. */
  lemma RunBlock(q: Four, out: seq<bv8>, s: seq<bv8>)
    requires |s| >= 3 && 0 !in s
    ensures Run(State(q, 0, out), Encode(s)) == Run(State(ZEROS, 0, out + s[..3]), Encode(s[3..]))
  {
    hide *;
    var v := Groups(s[0], s[1], s[2]);
    EncodeMore(s, v);
    RunDigits(State(q, 0, out), v, Encode(s[3..]));
    DecodeThree(s[0], s[1], s[2]);
    assert s[..3] == [s[0], s[1], s[2]];
  }

  lemma EncodeNothing(st: State)
    requires st.phase < 4
    ensures Run(st, Encode([])) == st.out
  {
  }

  lemma ZerosAreZero()
    ensures ZEROS[2] == 0 && ZEROS[3] == 0
  {
  }

  lemma DecodeIsRun(garbage: Four, text: string)
    ensures Decode(garbage, text) == Run(State(garbage, 0, []), text)
  {
  }

  /** From a zeroed `in`, decoding an encoded string appends it. */
  lemma {:induction false} RunEncode(q: Four, out: seq<bv8>, s: seq<bv8>)
    requires 0 !in s && q[2] == 0 && q[3] == 0
    ensures Run(State(q, 0, out), Encode(s)) == out + s
    decreases |s|
  {
    hide *;
    ZerosAreZero();
    if s == [] {
      EncodeNothing(State(q, 0, out));
    } else if |s| == 1 {
      RunLastOne(q, out, s);
    } else if |s| == 2 {
      RunLastTwo(q, out, s);
    } else {
      RunBlock(q, out, s);
      RunEncode(ZEROS, out + s[..3], s[3..]);
      assert out + s[..3] + s[3..] == out + s;
    }
  }

  /** Decoding an encoded string gives it back exactly when it has a full block, or the parts of
      the uninitialised `in` that the padding leaves in place happen not to matter. */
  lemma DecodeEncode(garbage: Four, s: seq<bv8>)
    requires s != [] && 0 !in s
    ensures Decode(garbage, Encode(s)) == s
            <==> |s| >= 3 || (|s| == 1 && garbage[2] < 4) || (|s| == 2 && garbage[3] == 0)
  {
    hide *;
    DecodeIsRun(garbage, Encode(s));
    ZerosAreZero();
    assert [] + s == s;
    if |s| == 1 {
      RunLastOne(garbage, [], s);
    } else if |s| == 2 {
      RunLastTwo(garbage, [], s);
    } else {
      RunBlock(garbage, [], s);
      RunEncode(ZEROS, [] + s[..3], s[3..]);
      assert [] + s[..3] + s[3..] == s;
    }
  }

  /** These are the strings that are given back whatever the array held. */
  lemma DecodeEncodeAlways(s: seq<bv8>)
    requires s != [] && 0 !in s
    ensures (forall garbage: Four :: Decode(garbage, Encode(s)) == s) <==> |s| >= 3
  {
    hide *;
    forall garbage: Four ensures |s| >= 3 ==> Decode(garbage, Encode(s)) == s {
      DecodeEncode(garbage, s);
    }
    var full: Four := [255, 255, 255, 255];
    DecodeEncode(full, s);
  }

  // ---------- characters outside the alphabet

  predicate Significant(c: char) {
    c == '=' || StrChr(B64, c) != -1
  }

  /** The text without the characters that are neither digits nor padding. */
  function Cleaned(text: string): (clean: string)
    ensures forall i :: 0 <= i < |clean| ==> Significant(clean[i])
  {
    if text == [] then [] else (if Significant(text[0]) then [text[0]] else []) + Cleaned(text[1..])
  }

  /** The decoder ignores them wherever they stand, from every state of its loop. */
  lemma {:induction false} RunIgnoresNoise(st: State, text: string)
    requires st.phase < 4
    ensures Run(st, Cleaned(text)) == Run(st, text)
    decreases |text|
  {
    if text != [] && text[0] != '=' {
      RunIgnoresNoise(Step(st, text[0]), text[1..]);
      if Significant(text[0]) {
        assert Cleaned(text)[1..] == Cleaned(text[1..]);
      } else {
        assert Cleaned(text) == Cleaned(text[1..]);
      }
    }
  }

  /** Two texts with the same significant characters, in order, decode to the same bytes. */
  lemma DecodeIgnoresNoise(garbage: Four, text: string, other: string)
    requires Cleaned(text) == Cleaned(other)
    ensures Decode(garbage, text) == Decode(garbage, other)
  {
    RunIgnoresNoise(State(garbage, 0, []), text);
    RunIgnoresNoise(State(garbage, 0, []), other);
  }

  // ---------- where decoding stops

  /** The digits in a text. */
  function DigitCount(text: string): (count: nat) {
    if text == [] then 0 else (if StrChr(B64, text[0]) != -1 then 1 else 0) + DigitCount(text[1..])
  }

  lemma RunCons(st: State, text: string)
    requires st.phase < 4 && text != [] && text[0] != '='
    ensures Run(st, text) == Run(Step(st, text[0]), text[1..])
  {
  }

  /** What stands behind the first padding character does not matter. */
  lemma {:induction false} RunStopsAtPad(st: State, text: string, rest: string)
    requires st.phase < 4 && '=' !in text
    ensures Run(st, text + ['='] + rest) == Run(st, text + ['='])
    decreases |text|
  {
    hide *;
    if text == [] {
      RunPad(st, rest);
      RunPad(st, []);
      assert text + ['='] + rest == ['='] + rest && text + ['='] == ['='] + [];
    } else {
      RunCons(st, text + ['='] + rest);
      RunCons(st, text + ['=']);
      RunStopsAtPad(Step(st, text[0]), text[1..], rest);
      assert (text + ['='] + rest)[1..] == text[1..] + ['='] + rest;
      assert (text + ['='])[1..] == text[1..] + ['='];
    }
  }

  lemma DecodeStopsAtPad(garbage: Four, text: string, rest: string)
    requires '=' !in text
    ensures Decode(garbage, text + ['='] + rest) == Decode(garbage, text + ['='])
  {
    RunStopsAtPad(State(garbage, 0, []), text, rest);
  }

  /** Digits that do not fill a block before the text ends are dropped. */
  lemma {:induction false} RunShort(st: State, text: string)
    requires st.phase < 4 && '=' !in text && st.phase + DigitCount(text) < 4
    ensures Run(st, text) == st.out
    decreases |text|
  {
    if text != [] {
      RunShort(Step(st, text[0]), text[1..]);
    }
  }

  /** A digit moves the phase on by one, or completes a block of four. */
  lemma PhaseStep(st: State, text: string)
    requires st.phase < 4 && text != []
    ensures var now, before := Step(st, text[0]).phase + DigitCount(text[1..]), st.phase + DigitCount(text);
            now == before || (now == before - 4 && before >= 4)
  {
    hide StrChr, B64, UPPER, LOWER, DIGITS, DecodeBlock;
  }

  lemma NoDigits()
    ensures DigitCount([]) == 0
  {
  }

  lemma {:induction false} RunThenShort(st: State, text: string, rest: string, blocks: nat)
    requires st.phase < 4 && '=' !in text && '=' !in rest
    requires st.phase + DigitCount(text) == 4 * blocks && DigitCount(rest) < 4
    ensures Run(st, text + rest) == Run(st, text)
    decreases |text|
  {
    hide *;
    if text == [] {
      NoDigits();
      assert text + rest == rest;
      RunShort(st, rest);
      RunShort(st, text);
    } else {
      PhaseStep(st, text);
      var before := st.phase + DigitCount(text);
      var next := if Step(st, text[0]).phase + DigitCount(text[1..]) == before then blocks else blocks - 1;
      RunThenShort(Step(st, text[0]), text[1..], rest, next);
      RunCons(st, text);
      RunCons(st, text + rest);
      assert (text + rest)[1..] == text[1..] + rest;
    }
  }

  /** Behind full blocks, up to three more digits without padding add nothing. */
  lemma DecodeDropsShort(garbage: Four, text: string, rest: string)
    requires '=' !in text && '=' !in rest && DigitCount(text) % 4 == 0 && DigitCount(rest) < 4
    ensures Decode(garbage, text + rest) == Decode(garbage, text)
  {
    RunThenShort(State(garbage, 0, []), text, rest, DigitCount(text) / 4);
  }

  // ---------- shape and size of encoded text

  function EncodedSize(n: nat): nat {
    4 * ((n + 2) / 3)
  }

  function PadSize(n: nat): nat {
    (3 - n % 3) % 3
  }

  lemma BlockShape(a: bv8, b: bv8, c: bv8, len: nat)
    requires 1 <= len <= 3
    ensures forall i :: 0 <= i < 4 ==> var d := EncodeBlock(a, b, c, len)[i]; d != NUL && (d == '=' <==> i > len)
  {
    var v := Groups(a, b, c);
    BlockDigits(a, b, c, len, v);
    StrChrDigit(v[0]);
    StrChrDigit(v[1]);
    StrChrDigit(v[2]);
    StrChrDigit(v[3]);
  }

  lemma PadAppend(block: string, rest: string, pad: nat)
    requires forall i :: 0 <= i < |block| ==> block[i] != NUL && block[i] != '='
    requires pad <= |rest| && NUL !in rest
    requires forall i :: 0 <= i < |rest| ==> (rest[i] == '=' <==> i >= |rest| - pad)
    ensures NUL !in block + rest
    ensures forall i :: 0 <= i < |block + rest| ==> ((block + rest)[i] == '=' <==> i >= |block + rest| - pad)
  {
  }

  lemma SizeSteps(n: nat)
    ensures EncodedSize(n) == if n == 0 then 0 else if n < 3 then 4 else 4 + EncodedSize(n - 3)
    ensures PadSize(n) == if n == 0 then 0 else if n < 3 then 3 - n else PadSize(n - 3)
    ensures n > 2 ==> EncodedSize(n - 3) >= PadSize(n - 3)
  {
  }

  /** Encoded text has four characters for every three bytes or part of them, and padding stands
      only at its end, one character for every byte the last block is short of. */
  lemma {:induction false} EncodeShape(s: seq<bv8>)
    ensures |Encode(s)| == EncodedSize(|s|) && NUL !in Encode(s)
    ensures forall i :: 0 <= i < |Encode(s)| ==> (Encode(s)[i] == '=' <==> i >= |Encode(s)| - PadSize(|s|))
    decreases |s|
  {
    hide *;
    EncodeCases(s);
    SizeSteps(|s|);
    if |s| == 1 {
      BlockShape(s[0], 0, 0, 1);
    } else if |s| == 2 {
      BlockShape(s[0], s[1], 0, 2);
    } else if |s| > 2 {
      BlockShape(s[0], s[1], s[2], 3);
      EncodeShape(s[3..]);
      PadAppend(EncodeBlock(s[0], s[1], s[2], 3), Encode(s[3..]), PadSize(|s|));
    }
  }

  /** The buffer of n + 50 characters holds the text and its terminator exactly for these n. */
  lemma EncodeFits(n: nat)
    ensures EncodedSize(n) + 1 <= n + 50 <==> n <= 141 || n in {143, 144, 147}
  {
  }

  // ---------- the functions as they are written

  /** `clrstr[j]`, the terminator included. */
  function At(clrstr: seq<bv8>, j: nat): bv8 {
    if j < |clrstr| then clrstr[j] else 0
  }

  /** `encodeblock`. */
  method AppendEncoded(input: array<bv8>, b64str: array<char>, len: nat, ghost s: string)
    requires input.Length == 3 && 1 <= len <= 3
    requires Text(b64str, s, NUL) && |s| + 4 < b64str.Length
    modifies b64str
    ensures Text(b64str, s + EncodeBlock(input[0], input[1], input[2], len), NUL)
  {
    var out := EncodeBlock(input[0], input[1], input[2], len);
    BlockShape(input[0], input[1], input[2], len);
    StrNCat(b64str, out, NUL, s);
  }

  /** The inner loop of `base64_encode`: takes up to three bytes and fills up with zeros. */
  method TakeBlock(clrstr: seq<bv8>, start: nat, input: array<bv8>) returns (len: nat, j: nat)
    requires 0 !in clrstr && start <= |clrstr| && input.Length == 3
    modifies input
    ensures len == (if |clrstr| - start < 3 then |clrstr| - start else 3) && j == start + len
    ensures forall k :: 0 <= k < 3 ==> input[k] == At(clrstr, start + k)
  {
    len, j := 0, start;
    for i := 0 to 3
      invariant len == (if |clrstr| - start < i then |clrstr| - start else i) && j == start + len
      invariant forall k :: 0 <= k < i ==> input[k] == At(clrstr, start + k)
    {
      input[i] := At(clrstr, j);
      if At(clrstr, j) != 0 {
        len, j := len + 1, j + 1;
      } else {
        input[i] := 0;
      }
    }
  }

  lemma EncodeStep(s: seq<bv8>, j: nat, len: nat)
    requires j < |s| && len == if |s| - j < 3 then |s| - j else 3
    ensures Encode(s[j..]) == EncodeBlock(s[j], At(s, j + 1), At(s, j + 2), len) + Encode(s[j + len..])
  {
    assert s[j..][len..] == s[j + len..];
  }

  /** One turn of the outer loop of `base64_encode`. */
  method EncodeRound(clrstr: seq<bv8>, start: nat, input: array<bv8>, b64dst: array<char>, ghost text: string)
    returns (j: nat, ghost longer: string)
    requires 0 !in clrstr && start < |clrstr| && input.Length == 3
    requires Text(b64dst, text, NUL) && |text| + 4 < b64dst.Length
    modifies input, b64dst
    ensures start < j <= |clrstr| && Text(b64dst, longer, NUL)
    ensures longer + Encode(clrstr[j..]) == text + Encode(clrstr[start..])
  {
    var len;
    longer := text;
    len, j := TakeBlock(clrstr, start, input);
    if len != 0 {
      AppendEncoded(input, b64dst, len, text);
      longer := text + EncodeBlock(input[0], input[1], input[2], len);
    }
    EncodeStep(clrstr, start, len);
    assert input[0] == At(clrstr, start) == clrstr[start];
    hide *;
    assert input[1] == At(clrstr, start + 1) && input[2] == At(clrstr, start + 2);
    assert longer + Encode(clrstr[j..])
           == text + (EncodeBlock(input[0], input[1], input[2], len) + Encode(clrstr[j..]));
  }

  /** What is still to be encoded needs at least four more characters. */
  lemma RoomLeft(clrstr: seq<bv8>, j: nat, text: string)
    requires j < |clrstr| && text + Encode(clrstr[j..]) == Encode(clrstr)
    ensures |text| + 4 <= EncodedSize(|clrstr|)
  {
    hide *;
    EncodeShape(clrstr);
    EncodeShape(clrstr[j..]);
    SizeSteps(|clrstr| - j);
  }

  lemma EncodeAll(clrstr: seq<bv8>, j: nat, text: string)
    requires j <= |clrstr| && text + Encode(clrstr[j..]) == Encode(clrstr)
    ensures j == |clrstr| ==> text == Encode(clrstr)
  {
    if j == |clrstr| {
      assert clrstr[j..] == [];
      assert text + [] == text;
    }
  }

  /** `base64_encode`. The buffer has to be large enough; `EncodeFits` says when it is. */
  method Base64Encode(clrstr: seq<bv8>) returns (b64dst: array<char>)
    requires 0 !in clrstr && EncodedSize(|clrstr|) + 1 <= |clrstr| + 50
    ensures fresh(b64dst) && Text(b64dst, Encode(clrstr), NUL) && b64dst.Length == EncodedSize(|clrstr|) + 1
  {
    var input := new bv8[3];
    var buffer := new char[|clrstr| + 50];
    buffer[0] := NUL;
    var j: nat := 0;
    ghost var text: string := "";
    assert Text(buffer, text, NUL);
    hide *;
    EncodeShape(clrstr);
    assert clrstr[0..] == clrstr && text + Encode(clrstr) == Encode(clrstr);
    while j < |clrstr| && clrstr[j] != 0
      invariant j <= |clrstr| && Text(buffer, text, NUL)
      invariant text + Encode(clrstr[j..]) == Encode(clrstr)
      decreases |clrstr| - j
    {
      RoomLeft(clrstr, j, text);
      j, text := EncodeRound(clrstr, j, input, buffer, text);
    }
    EncodeAll(clrstr, j, text);
    b64dst := ShrinkToFit(buffer, NUL, text);
  }

  /** `decodeblock`. */
  method AppendDecoded(digits: array<bv8>, clrstr: array<bv8>, ghost out: seq<bv8>)
    requires digits.Length == 4 && digits != clrstr
    requires Text(clrstr, out, 0) && |out| + 3 < clrstr.Length
    modifies clrstr
    ensures Text(clrstr, out + DecodeBlock(digits[..]), 0)
  {
    var bytes := [(digits[0] << 2) | (digits[1] >> 4),
                  (digits[1] << 4) | (digits[2] >> 2),
                  (digits[2] << 6) | (digits[3] >> 0)];
    StrNCat(clrstr, bytes, 0, out);
  }

  lemma StepCases(st: State, c: char)
    requires st.phase < 4
    ensures var p := StrChr(B64, c);
            if p == -1 then Step(st, c) == st
            else
              0 <= p < 64 &&
              var digits := st.digits[st.phase := p as bv8];
              Step(st, c) == if st.phase == 3 then State([0, 0, 0, 0], 0, st.out + DecodeBlock(digits))
                             else State(digits, st.phase + 1, st.out)
  {
    AlphabetAt(0);
  }

  /** Decodes a full block and clears `in`. */
  method FlushDecoded(digits: array<bv8>, clrdst: array<bv8>, ghost out: seq<bv8>)
    requires digits.Length == 4 && digits != clrdst
    requires Text(clrdst, out, 0) && |out| + 3 < clrdst.Length
    modifies digits, clrdst
    ensures digits[..] == [0, 0, 0, 0] && Text(clrdst, out + DecodeBlock(old(digits[..])), 0)
    ensures |DecodeBlock(old(digits[..]))| <= 3
  {
    AppendDecoded(digits, clrdst, out);
    digits[0], digits[1], digits[2], digits[3] := 0, 0, 0, 0;
  }

  /** One turn of the loop of `base64_decode`, on a character other than the padding. */
  method DecodeRound(c: char, digits: array<bv8>, phase: nat, clrdst: array<bv8>, ghost out: seq<bv8>)
    returns (next: nat, ghost longer: seq<bv8>)
    requires digits.Length == 4 && digits != clrdst && phase < 4
    requires Text(clrdst, out, 0) && |out| + 3 < clrdst.Length
    modifies digits, clrdst
    ensures State(digits[..], next, longer) == Step(State(old(digits[..]), phase, out), c)
    ensures Text(clrdst, longer, 0) && next < 4 && 4 * |longer| + 3 * next <= 4 * |out| + 3 * phase + 3
  {
    hide *;
    StepCases(State(digits[..], phase, out), c);
    next, longer := phase, out;
    var p := StrChr(B64, c);
    if p != -1 {
      digits[phase] := p as bv8;
      next := (phase + 1) % 4;
      if next == 0 {
        longer := out + DecodeBlock(digits[..]);
        FlushDecoded(digits, clrdst, out);
      }
    }
  }

  lemma RunStep(st: State, text: string, i: nat)
    requires st.phase < 4 && i < |text|
    ensures Run(st, text[i..]) ==
            if text[i] == '=' then st.out + DecodeBlock(st.digits) else Run(Step(st, text[i]), text[i + 1..])
    ensures Step(st, text[i]).phase < 4
  {
    assert text[i..][1..] == text[i + 1..];
  }

  lemma RunEnd(st: State)
    requires st.phase < 4
    ensures Run(st, []) == st.out
  {
  }

  /** The buffer has room for another block as long as there is a character left. */
  lemma RoomToDecode(n: nat, i: nat, phase: nat, out: nat)
    requires i < n && 4 * out + 3 * phase <= 3 * i
    ensures out + 3 < (n - 1) / 3 * 4 + 4 + 50
  {
  }

  /** `base64_decode`; `garbage` reports what the array `in`, which is never initialised, held at
      the start. The text must not be empty: the size computed for its buffer would wrap around. */
  method Base64Decode(b64src: string) returns (clrdst: array<bv8>, ghost garbage: Four)
    requires b64src != "" && NUL !in b64src
    ensures fresh(clrdst) && Text(clrdst, Decode(garbage, b64src), 0)
    ensures clrdst.Length == |Decode(garbage, b64src)| + 1
  {
    hide *;
    clrdst := new bv8[(|b64src| - 1) / 3 * 4 + 4 + 50];
    var digits := new bv8[4];
    garbage := digits[..];
    clrdst[0] := 0;
    var phase: nat, i: nat := 0, 0;
    ghost var out: seq<bv8> := [];
    EmptyText(clrdst, 0);
    DecodeIsRun(garbage, b64src);
    assert b64src[0..] == b64src;
    while i < |b64src|
      invariant i <= |b64src| && phase < 4 && Text(clrdst, out, 0)
      invariant 4 * |out| + 3 * phase <= 3 * i
      invariant Run(State(digits[..], phase, out), b64src[i..]) == Decode(garbage, b64src)
    {
      var c := b64src[i];
      RoomToDecode(|b64src|, i, phase, |out|);
      RunStep(State(digits[..], phase, out), b64src, i);
      if c == '=' {
        AppendDecoded(digits, clrdst, out);
        clrdst := ShrinkToFit(clrdst, 0, Decode(garbage, b64src));
        return;
      }
      phase, out := DecodeRound(c, digits, phase, clrdst, out);
      i := i + 1;
    }
    RunEnd(State(digits[..], phase, out));
    assert b64src[i..] == [];
    clrdst := ShrinkToFit(clrdst, 0, out);
  }
}
