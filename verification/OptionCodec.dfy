/** The wire format of DHCP options (sections 2 and 9 of RFC 2132) as `options.c` reads and
    writes it, on values: a printer, a parser, and the theorem that they are inverse. */
module OptionCodec {
  import opened Wrappers
  import opened Memory

  /** The byte that closes the options field. */
  const END: byte := 255

  /** The data of an option has to fit its length byte. */
  type Data = s: seq<byte> | |s| <= 255

  /** One option: its code and its data; the length byte on the wire is `|data|`. */
  datatype Opt = Opt(id: byte, data: Data)

  /** An END code in front of an option would close the field early. */
  predicate AllPrintable(opts: seq<Opt>) {
    forall i :: 0 <= i < |opts| ==> opts[i].id != END
  }

  function PrintOne(o: Opt): (wire: seq<byte>)
  {
    [o.id, |o.data|] + o.data
  }

  /** The options one after the other, without the closing END. */
  function Print(opts: seq<Opt>): (wire: seq<byte>)
  {
    if opts == [] then [] else PrintOne(opts[0]) + Print(opts[1..])
  }

  /** How many bytes the option at `p` takes: code, length and data. */
  function SizeAt(bytes: seq<byte>, p: nat): (size: nat)
    ensures 2 <= size <= 257
  {
    if p + 1 < |bytes| then var length: nat := bytes[p + 1]; 2 + length else 2
  }

  function OptAt(bytes: seq<byte>, p: nat): (o: Opt)
    requires p + SizeAt(bytes, p) <= |bytes|
  {
    Opt(bytes[p], bytes[p + 2..p + SizeAt(bytes, p)])
  }

  /** Reads options from `p` on until an END stands where an option would start. `None` is the
      case the C parser has no answer for: it would run past the end of the buffer. */
  function ParseFrom(bytes: seq<byte>, p: nat): (result: Option<seq<Opt>>)
    decreases |bytes| - p
  {
    if p >= |bytes| then None
    else if bytes[p] == END then Some([])
    else if p + SizeAt(bytes, p) > |bytes| then None
    else
      match ParseFrom(bytes, p + SizeAt(bytes, p))
      case None => None
      case Some(rest) => Some([OptAt(bytes, p)] + rest)
  }

  function Parse(bytes: seq<byte>): (result: Option<seq<Opt>>) {
    ParseFrom(bytes, 0)
  }

  lemma {:induction false} PrintAppend(front: seq<Opt>, back: seq<Opt>)
    ensures Print(front + back) == Print(front) + Print(back)
  {
    if front == [] {
      assert front + back == back;
    } else {
      assert (front + back)[1..] == front[1..] + back;
      PrintAppend(front[1..], back);
    }
  }

  lemma PrintPrefix(opts: seq<Opt>, k: nat)
    requires k < |opts|
    ensures Print(opts[..k + 1]) == Print(opts[..k]) + PrintOne(opts[k])
    ensures |Print(opts[..k + 1])| <= |Print(opts)|
    ensures k == 0 ==> Print(opts[..k]) == []
  {
    assert opts[..k + 1] == opts[..k] + [opts[k]];
    PrintAppend(opts[..k], [opts[k]]);
    assert Print([opts[k]]) == PrintOne(opts[k]) + Print([]);
    assert opts == opts[..k + 1] + opts[k + 1..];
    PrintAppend(opts[..k + 1], opts[k + 1..]);
  }

  /** The parser has read `done` and stands at `p`. */
  predicate StandsAt(bytes: seq<byte>, p: nat, done: seq<Opt>) {
    p < |bytes| && ParseFrom(bytes, p).Some? && Parse(bytes) == Some(done + ParseFrom(bytes, p).value)
  }

  lemma ParseStart(bytes: seq<byte>)
    requires Parse(bytes).Some?
    ensures StandsAt(bytes, 0, [])
  {
    assert [] + Parse(bytes).value == Parse(bytes).value;
  }

  /** One round of the parser: the option at `p` moves to the end of those done. */
  lemma ParseStep(bytes: seq<byte>, p: nat, done: seq<Opt>)
    requires StandsAt(bytes, p, done) && bytes[p] != END
    ensures p + SizeAt(bytes, p) < |bytes|
    ensures StandsAt(bytes, p + SizeAt(bytes, p), done + [OptAt(bytes, p)])
  {
    var rest := ParseFrom(bytes, p + SizeAt(bytes, p)).value;
    assert done + ([OptAt(bytes, p)] + rest) == done + [OptAt(bytes, p)] + rest;
  }

  lemma ParseFinish(bytes: seq<byte>, p: nat, done: seq<Opt>)
    requires StandsAt(bytes, p, done) && bytes[p] == END
    ensures Parse(bytes) == Some(done)
  {
    assert done + [] == done;
  }

  /** Where an option was printed the parser reads that option, and goes on behind it. */
  lemma PrintedOption(bytes: seq<byte>, p: nat, o: Opt, rest: seq<byte>)
    requires p <= |bytes| && PrintOne(o) + rest <= bytes[p..]
    ensures p + |PrintOne(o)| <= |bytes| && SizeAt(bytes, p) == |PrintOne(o)|
    ensures bytes[p] == o.id && OptAt(bytes, p) == o
    ensures rest <= bytes[p + |PrintOne(o)|..]
  {
    var wire := PrintOne(o) + rest;
    var q := p + |PrintOne(o)|;
    assert forall i :: 0 <= i < |wire| ==> bytes[p + i] == wire[i];
    assert bytes[p + 2..q] == o.data;
    assert bytes[q..] == bytes[p..][|PrintOne(o)|..];
  }

  lemma ParseUnfold(bytes: seq<byte>, p: nat)
    requires p < |bytes| && bytes[p] != END && p + SizeAt(bytes, p) <= |bytes|
    requires ParseFrom(bytes, p + SizeAt(bytes, p)).Some?
    ensures ParseFrom(bytes, p) == Some([OptAt(bytes, p)] + ParseFrom(bytes, p + SizeAt(bytes, p)).value)
  {
  }

  lemma ParsedNothing(bytes: seq<byte>, p: nat)
    requires p <= |bytes| && Print([]) + [END] <= bytes[p..]
    ensures ParseFrom(bytes, p) == Some([])
  {
    assert bytes[p..][0] == END;
  }

  lemma PrintCons(opts: seq<Opt>)
    requires opts != [] && AllPrintable(opts)
    ensures Print(opts) == PrintOne(opts[0]) + Print(opts[1..])
    ensures opts[0].id != END && AllPrintable(opts[1..]) && |PrintOne(opts[0])| > 0
  {
  }

  /** Printing and then parsing gives the options back, whatever stands around the print. */
  lemma {:induction false} ParsePrintFrom(bytes: seq<byte>, p: nat, opts: seq<Opt>)
    requires AllPrintable(opts)
    requires p <= |bytes| && Print(opts) + [END] <= bytes[p..]
    ensures ParseFrom(bytes, p) == Some(opts)
    decreases |opts|
  {
    hide *;
    if opts == [] {
      ParsedNothing(bytes, p);
    } else {
      var o, rest := opts[0], opts[1..];
      PrintCons(opts);
      assert Print(opts) + [END] == PrintOne(o) + (Print(rest) + [END]);
      PrintedOption(bytes, p, o, Print(rest) + [END]);
      ParsePrintFrom(bytes, p + |PrintOne(o)|, rest);
      ParseUnfold(bytes, p);
      assert [o] + rest == opts;
    }
  }

  /** Whatever the parser accepts is, up to and including the END, the print of its result. */
  lemma {:induction false} PrintParseFrom(bytes: seq<byte>, p: nat)
    requires ParseFrom(bytes, p).Some?
    ensures var opts := ParseFrom(bytes, p).value;
            p <= |bytes| && AllPrintable(opts) && Print(opts) + [END] <= bytes[p..]
    decreases |bytes| - p
  {
    if bytes[p] != END {
      var q := p + SizeAt(bytes, p);
      PrintParseFrom(bytes, q);
      var opts := ParseFrom(bytes, p).value;
      assert opts[1..] == ParseFrom(bytes, q).value;
      assert bytes[p..] == PrintOne(opts[0]) + bytes[q..];
    }
  }

  /** Parser and printer define the same relation: a buffer parses to `opts` exactly when it
      starts with the print of `opts` and an END. */
  lemma ParseIffPrint(bytes: seq<byte>, opts: seq<Opt>)
    ensures Parse(bytes) == Some(opts)
            <==> AllPrintable(opts) && Print(opts) + [END] <= bytes
  {
    assert bytes[0..] == bytes;
    if Parse(bytes) == Some(opts) {
      PrintParseFrom(bytes, 0);
    }
    if AllPrintable(opts) && Print(opts) + [END] <= bytes {
      ParsePrintFrom(bytes, 0, opts);
    }
  }

  /** Without an END there is nothing the parser could accept. */
  lemma ParsedHasEnd(bytes: seq<byte>)
    ensures Parse(bytes).Some? ==> END in bytes
  {
    if Parse(bytes).Some? {
      PrintParseFrom(bytes, 0);
      var n := |Print(Parse(bytes).value)|;
      assert bytes[0..] == bytes && bytes[..n + 1][n] == bytes[n];
    }
  }

  /** How far the parser goes, the END included. */
  function ParseEnd(bytes: seq<byte>, p: nat): (end: nat)
    requires ParseFrom(bytes, p).Some?
    ensures p < end <= |bytes|
    decreases |bytes| - p
  {
    if bytes[p] == END then p + 1 else ParseEnd(bytes, p + SizeAt(bytes, p))
  }

  /** Where the walk of the C parser ends if nothing stops it but an END: from option to option, by
      the length byte of each. A position behind the buffer means that it left it. */
  function Walk(bytes: seq<byte>, p: nat): (end: nat)
    ensures p <= end
    decreases |bytes| - p
  {
    if p >= |bytes| || bytes[p] == END then p else Walk(bytes, p + SizeAt(bytes, p))
  }

  /** The parser has no answer exactly for the buffers whose END the walk misses; in all others the
      END it stops at is the one where the parser ends. */
  lemma {:induction false} WalkLeavesIff(bytes: seq<byte>, p: nat)
    ensures ParseFrom(bytes, p).None? <==> Walk(bytes, p) >= |bytes|
    ensures ParseFrom(bytes, p).Some? ==> ParseEnd(bytes, p) == Walk(bytes, p) + 1
    decreases |bytes| - p
  {
    if p < |bytes| && bytes[p] != END {
      WalkLeavesIff(bytes, p + SizeAt(bytes, p));
    }
  }

  /** The bytes gone through are those the result prints to. */
  lemma {:induction false} ParseEndIsPrintEnd(bytes: seq<byte>, p: nat)
    requires ParseFrom(bytes, p).Some?
    ensures ParseEnd(bytes, p) == p + |Print(ParseFrom(bytes, p).value)| + 1
    decreases |bytes| - p
  {
    if bytes[p] != END {
      var q := p + SizeAt(bytes, p);
      ParseEndIsPrintEnd(bytes, q);
      assert ParseFrom(bytes, p).value[1..] == ParseFrom(bytes, q).value;
    }
  }

  /** Bytes behind the first END on an option boundary do not matter: any buffer that agrees up
      to there parses to the same options and stops at the same place. */
  lemma ParseIgnoresTail(bytes: seq<byte>, other: seq<byte>)
    requires Parse(bytes).Some?
    requires bytes[..ParseEnd(bytes, 0)] <= other
    ensures Parse(other) == Parse(bytes) && ParseEnd(other, 0) == ParseEnd(bytes, 0)
  {
    ParseIffPrint(bytes, Parse(bytes).value);
    ParseEndIsPrintEnd(bytes, 0);
    assert bytes[..ParseEnd(bytes, 0)] == Print(Parse(bytes).value) + [END];
    ParseIffPrint(other, Parse(bytes).value);
    ParseEndIsPrintEnd(other, 0);
  }

  /** No list is printed as the beginning of another one's print. */
  lemma PrintInjective(a: seq<Opt>, b: seq<Opt>)
    requires AllPrintable(a) && AllPrintable(b)
    requires Print(a) + [END] <= Print(b) + [END]
    ensures a == b
  {
    ParseIffPrint(Print(b) + [END], a);
    ParseIffPrint(Print(b) + [END], b);
  }

  /** The data of the first option with a given code. */
  function FirstData(opts: seq<Opt>, code: byte): (result: Option<Data>)
    ensures result.None? <==> forall i :: 0 <= i < |opts| ==> opts[i].id != code
  {
    if opts == [] then None
    else if opts[0].id == code then Some(opts[0].data)
    else FirstData(opts[1..], code)
  }

  lemma {:induction false} FirstDataAt(opts: seq<Opt>, code: byte, k: nat)
    requires k < |opts| && opts[k].id == code
    requires forall i :: 0 <= i < k ==> opts[i].id != code
    ensures FirstData(opts, code) == Some(opts[k].data)
  {
    if k > 0 {
      FirstDataAt(opts[1..], code, k - 1);
    }
  }
}
