/** What the DHCP server answers, as a function of the request: the specification of
    `dhcpServer.c`, and what follows from it about the bytes on the wire. */
module DhcpReplies {
  import opened Wrappers
  import opened Memory
  import opened OptionCodec
  import opened DhcpMessages

  const BOOTREQUEST: byte := 1
  const BOOTREPLY: byte := 2

  const DHCP_DISCOVER: byte := 1
  const DHCP_OFFER: byte := 2
  const DHCP_REQUEST: byte := 3
  const DHCP_ACK: byte := 5

  const SUBNET_MASK: byte := 1
  const ROUTER: byte := 3
  const IP_ADDRESS_LEASE_TIME: byte := 51
  const DHCP_MESSAGE_TYPE: byte := 53
  const PARAMETER_REQUEST_LIST: byte := 55

  /** Four bytes in memory order. */
  type Address = a: seq<byte> | |a| == 4 witness [0, 0, 0, 0]

  const MAGIC_COOKIE: Address := [0x63, 0x82, 0x53, 0x63]
  const OFFER_IP: Address := [192, 168, 1, 25]
  const INF_LEASE_TIME: Address := [255, 255, 255, 255]

  /** The two addresses the server reads off its network interface. */
  datatype Netif = Netif(netmask: Address, gw: Address)

  /** `*((uint32_t *)address)` on the little-endian processor. */
  function LoadWord(a: Address): uint32 {
    var b0: int, b1: int, b2: int, b3: int := a[0], a[1], a[2], a[3];
    b0 + 0x100 * b1 + 0x1_0000 * b2 + 0x100_0000 * b3
  }

  /** The codes of a parameter request list that the server answers, in order. */
  function Served(codes: seq<byte>): (served: seq<byte>)
    ensures forall i :: 0 <= i < |served| ==> served[i] in {SUBNET_MASK, ROUTER}
  {
    if codes == [] then []
    else
      var front, last := codes[..|codes| - 1], codes[|codes| - 1];
      Served(front) + if last in {SUBNET_MASK, ROUTER} then [last] else []
  }

  function Answer(code: byte, netif: Netif): Opt {
    Opt(code, if code == SUBNET_MASK then netif.netmask else netif.gw)
  }

  function Answers(served: seq<byte>, netif: Netif): (opts: seq<Opt>)
    ensures |opts| == |served|
    ensures forall i :: 0 <= i < |opts| ==> opts[i] == Answer(served[i], netif)
  {
    seq(|served|, i requires 0 <= i < |served| => Answer(served[i], netif))
  }

  /** What one code of a parameter request list is answered with. */
  function AnswerTo(code: byte, netif: Netif): (opts: seq<Opt>) {
    if code in {SUBNET_MASK, ROUTER} then [Answer(code, netif)] else []
  }

  lemma ServedNone(netif: Netif)
    ensures Answers(Served([]), netif) == []
  {
  }

  lemma ServedStep(codes: seq<byte>, k: nat, netif: Netif)
    requires k < |codes|
    ensures Answers(Served(codes[..k + 1]), netif)
            == Answers(Served(codes[..k]), netif) + AnswerTo(codes[k], netif)
  {
    assert codes[..k + 1][..k] == codes[..k];
  }

  lemma ServedOne(code: byte)
    ensures Served([code]) == if code == 1 || code == 3 then [code] else []
  {
  }

  /** The served codes of two request lists in a row are those of the first and then those of the
      second; with `ServedOne` this says which codes are served, in which order and how often. */
  lemma {:induction false} ServedConcat(a: seq<byte>, b: seq<byte>)
    ensures Served(a + b) == Served(a) + Served(b)
  {
    if b == [] {
      assert a + b == a;
    } else {
      assert (a + b)[..|a + b| - 1] == a + b[..|b| - 1];
      ServedConcat(a, b[..|b| - 1]);
    }
  }

  function ReplyOptions(kind: byte, served: seq<byte>, netif: Netif): (opts: seq<Opt>) {
    [Opt(DHCP_MESSAGE_TYPE, [kind])] + Answers(served, netif) + [Opt(IP_ADDRESS_LEASE_TIME, INF_LEASE_TIME)]
  }

  lemma ReplyOptionsAre(kind: byte, served: seq<byte>, netif: Netif)
    ensures ReplyOptions(kind, served, netif)
            == [Opt(DHCP_MESSAGE_TYPE, [kind])] + Answers(served, netif) + [Opt(IP_ADDRESS_LEASE_TIME, INF_LEASE_TIME)]
  {
  }

  /** Every option but the message type takes six bytes. */
  lemma {:induction false} PrintFours(opts: seq<Opt>)
    requires forall i :: 0 <= i < |opts| ==> |opts[i].data| == 4
    ensures |Print(opts)| == 6 * |opts|
  {
    if opts != [] {
      PrintFours(opts[1..]);
    }
  }

  /** The exact size of the reply's options, the END included. */
  lemma ReplySize(kind: byte, served: seq<byte>, netif: Netif)
    requires forall i :: 0 <= i < |served| ==> served[i] in {SUBNET_MASK, ROUTER}
    ensures |Print(ReplyOptions(kind, served, netif))| + 1 == 10 + 6 * |served|
  {
    var opts := ReplyOptions(kind, served, netif);
    assert Print(opts) == PrintOne(opts[0]) + Print(opts[1..]);
    PrintFours(opts[1..]);
  }

  /** The reply fits its field exactly when at most 49 answers are asked for. */
  predicate Fits(served: seq<byte>) {
    |served| <= 49
  }

  lemma FitsIff(kind: byte, served: seq<byte>, netif: Netif)
    requires forall i :: 0 <= i < |served| ==> served[i] in {SUBNET_MASK, ROUTER}
    ensures Fits(served) <==> |Print(ReplyOptions(kind, served, netif))| + 1 <= OPTIONS_SIZE
  {
    ReplySize(kind, served, netif);
  }

  /** A client that asks for nothing twice gets at most one answer for each of the two codes, so
      its reply always fits. */
  lemma {:induction false} NoRepeatFits(codes: seq<byte>)
    requires forall i, j :: 0 <= i < j < |codes| ==> codes[i] != codes[j]
    ensures |Served(codes)| == (if SUBNET_MASK in codes then 1 else 0) + (if ROUTER in codes then 1 else 0)
    ensures Fits(Served(codes))
  {
    if codes != [] {
      var front, last := codes[..|codes| - 1], codes[|codes| - 1];
      NoRepeatFits(front);
      assert forall c :: c in codes <==> c in front || c == last;
      assert last !in front;
    }
  }

  lemma {:induction false} RepeatedMask(n: nat)
    ensures Served(seq(n, i => SUBNET_MASK)) == seq(n, i => SUBNET_MASK)
  {
    if n > 0 {
      RepeatedMask(n - 1);
      assert seq(n, i => SUBNET_MASK)[..n - 1] == seq(n - 1, i => SUBNET_MASK);
    }
  }

  /** The whole options field of a reply: the options, the END and zeros. */
  function ReplyField(kind: byte, served: seq<byte>, netif: Netif): (field: seq<byte>)
    requires forall i :: 0 <= i < |served| ==> served[i] in {SUBNET_MASK, ROUTER}
    requires Fits(served)
    ensures |field| == OPTIONS_SIZE
  {
    ReplySize(kind, served, netif);
    var used := Print(ReplyOptions(kind, served, netif)) + [END];
    used + Zeros(OPTIONS_SIZE - |used|)
  }

  /** A zeroed field that the options were printed into is the field of the reply. */
  lemma FieldOf(field: seq<byte>, kind: byte, served: seq<byte>, netif: Netif)
    requires forall i :: 0 <= i < |served| ==> served[i] in {SUBNET_MASK, ROUTER}
    requires Fits(served) && |field| == OPTIONS_SIZE
    requires var n := |Print(ReplyOptions(kind, served, netif))| + 1;
             && n <= OPTIONS_SIZE && field[..n] == Print(ReplyOptions(kind, served, netif)) + [END]
             && forall i :: n <= i < OPTIONS_SIZE ==> field[i] == 0
    ensures field == ReplyField(kind, served, netif)
  {
    var n := |Print(ReplyOptions(kind, served, netif))| + 1;
    assert field[n..] == Zeros(OPTIONS_SIZE - n);
    assert field == field[..n] + field[n..];
  }

  lemma {:induction false} PrintFourAt(opts: seq<Opt>, i: nat)
    requires forall i :: 0 <= i < |opts| ==> |opts[i].data| == 4
    requires i < |opts|
    ensures |Print(opts)| == 6 * |opts|
    ensures Print(opts)[6 * i..6 * i + 6] == PrintOne(opts[i])
  {
    PrintFours(opts);
    PrintFours(opts[1..]);
    if i > 0 {
      PrintFourAt(opts[1..], i - 1);
      assert Print(opts)[6 * i..6 * i + 6] == Print(opts[1..])[6 * (i - 1)..6 * i];
    }
  }

  lemma InMiddle<T>(a: seq<T>, b: seq<T>, c: seq<T>, i: nat, j: nat)
    requires i <= j <= |b|
    ensures (a + b + c)[|a| + i..|a| + j] == b[i..j]
  {
  }

  /** Where the options behind the message type stand. */
  lemma ReplyOptionAt(kind: byte, served: seq<byte>, netif: Netif, i: nat)
    requires forall j :: 0 <= j < |served| ==> served[j] in {SUBNET_MASK, ROUTER}
    requires Fits(served) && i <= |served|
    ensures ReplyField(kind, served, netif)[3 + 6 * i..9 + 6 * i] == PrintOne(ReplyOptions(kind, served, netif)[i + 1])
  {
    var opts := ReplyOptions(kind, served, netif);
    ReplySize(kind, served, netif);
    var front, rest, back := PrintOne(opts[0]), Print(opts[1..]), [END] + Zeros(OPTIONS_SIZE - 10 - 6 * |served|);
    PrintFourAt(opts[1..], i);
    InMiddle(front, rest, back, 6 * i, 6 * i + 6);
    assert |front| == 3;
    assert ReplyField(kind, served, netif) == front + rest + back;
  }

  /** The options field of a reply byte by byte: the message type, the mask under code 1 or the
      gateway under code 3 for each served code, an infinite lease, the END, and zeros. */
  lemma ReplyBytes(kind: byte, served: seq<byte>, netif: Netif)
    requires forall i :: 0 <= i < |served| ==> served[i] in {1, 3}
    requires Fits(served)
    ensures var field, k := ReplyField(kind, served, netif), |served|;
            && field[..3] == [53, 1, kind]
            && (forall i :: 0 <= i < k && served[i] == 1 ==> field[3 + 6 * i..9 + 6 * i] == [1, 4] + netif.netmask)
            && (forall i :: 0 <= i < k && served[i] == 3 ==> field[3 + 6 * i..9 + 6 * i] == [3, 4] + netif.gw)
            && field[3 + 6 * k..9 + 6 * k] == [51, 4, 255, 255, 255, 255]
            && field[9 + 6 * k] == 255
            && field[10 + 6 * k..] == Zeros(298 - 6 * k)
  {
    var field, k := ReplyField(kind, served, netif), |served|;
    var opts := ReplyOptions(kind, served, netif);
    ReplySize(kind, served, netif);
    assert PrintOne(opts[0]) == [DHCP_MESSAGE_TYPE, 1, kind];
    forall i | 0 <= i < k ensures field[3 + 6 * i..9 + 6 * i] == [served[i], 4] + Answer(served[i], netif).data {
      ReplyOptionAt(kind, served, netif, i);
    }
    ReplyOptionAt(kind, served, netif, k);
  }

  /** A client that parses the reply finds exactly the options the server put in. */
  lemma ReplyParses(kind: byte, served: seq<byte>, netif: Netif)
    requires forall i :: 0 <= i < |served| ==> served[i] in {SUBNET_MASK, ROUTER}
    requires Fits(served)
    ensures Parse(ReplyField(kind, served, netif)) == Some(ReplyOptions(kind, served, netif))
  {
    ParseIffPrint(ReplyField(kind, served, netif), ReplyOptions(kind, served, netif));
  }

  /** The codes a request asks for: the data of its first parameter request list, if any. */
  function RequestedCodes(opts: seq<Opt>): (codes: seq<byte>) {
    match FirstData(opts, PARAMETER_REQUEST_LIST)
    case None => []
    case Some(codes) => codes
  }

  /** The codes asked for are the data of the first option 55. */
  lemma RequestedFirst(opts: seq<Opt>, k: nat)
    requires k <= |opts| && (k < |opts| ==> opts[k].id == 55)
    requires forall i :: 0 <= i < k ==> opts[i].id != 55
    ensures RequestedCodes(opts) == if k < |opts| then opts[k].data else []
  {
    if k < |opts| {
      FirstDataAt(opts, 55, k);
    }
  }

  /** A packet as the listener lets it through (`dhcpServer.c`, line 94). */
  predicate WellFormed(p: Packet) {
    && 1 <= p.hdr.hlen <= 16 && |p.options| == OPTIONS_SIZE
    && Parse(p.options).Some?
  }

  function ServedBy(request: Packet): (served: seq<byte>)
    requires Parse(request.options).Some?
    ensures forall i :: 0 <= i < |served| ==> served[i] in {SUBNET_MASK, ROUTER}
  {
    Served(RequestedCodes(Parse(request.options).value))
  }

  /** The header of the reply (`fillDhcpPacket`). */
  function FilledHeader(request: Header, address: Option<Address>): (reply: Header)
    requires request.hlen <= 16
  {
    ZERO_HEADER.(
      op := BOOTREPLY,
      htype := request.htype,
      hlen := request.hlen,
      xid := request.xid,
      flags := request.flags,
      giaddr := request.giaddr,
      chaddr := request.chaddr[..request.hlen] + Zeros(16 - request.hlen),
      magicCookie := MAGIC_COOKIE,
      yiaddr := if address.Some? then LoadWord(address.value) else 0)
  }

  /** A request the server can answer: the hardware address length is the one the listener checks,
      and the answers asked for fit the options field. */
  predicate Answerable(request: Header, opts: seq<Opt>) {
    1 <= request.hlen <= 16 && Fits(Served(RequestedCodes(opts)))
  }

  /** The reply to a request with this header and these options. */
  function ReplyTo(request: Header, opts: seq<Opt>, kind: byte, netif: Netif): (reply: Packet)
    requires Answerable(request, opts)
  {
    Packet(FilledHeader(request, Some(OFFER_IP)), ReplyField(kind, Served(RequestedCodes(opts)), netif))
  }

  /** The reply to a packet. */
  function Reply(request: Packet, kind: byte, netif: Netif): (reply: Packet)
    requires WellFormed(request) && Fits(ServedBy(request))
  {
    ReplyTo(request.hdr, Parse(request.options).value, kind, netif)
  }

  /** All of a request that its reply can show. */
  predicate SameToServer(a: Packet, b: Packet)
    requires WellFormed(a) && WellFormed(b)
  {
    && a.hdr.htype == b.hdr.htype && a.hdr.hlen == b.hdr.hlen
    && a.hdr.xid == b.hdr.xid && a.hdr.flags == b.hdr.flags && a.hdr.giaddr == b.hdr.giaddr
    && a.hdr.chaddr[..a.hdr.hlen] == b.hdr.chaddr[..b.hdr.hlen]
    && ServedBy(a) == ServedBy(b)
  }

  /** A DISCOVER with these codes as its parameter request list. */
  function Asking(codes: Data): (wire: seq<byte>) {
    [DHCP_MESSAGE_TYPE, 1, DHCP_DISCOVER, PARAMETER_REQUEST_LIST, |codes|] + codes + [END]
  }

  lemma AskingParses(options: seq<byte>, codes: Data)
    requires Asking(codes) <= options
    ensures Parse(options).Some? && RequestedCodes(Parse(options).value) == codes
    ensures FirstData(Parse(options).value, DHCP_MESSAGE_TYPE) == Some([DHCP_DISCOVER])
  {
    var a, b := Opt(DHCP_MESSAGE_TYPE, [DHCP_DISCOVER]), Opt(PARAMETER_REQUEST_LIST, codes);
    assert Print([a, b]) + [END] == Asking(codes) by {
      assert PrintOne(a) == [DHCP_MESSAGE_TYPE, 1, DHCP_DISCOVER];
      assert PrintOne(b) == [PARAMETER_REQUEST_LIST, |codes|] + codes;
      assert Print([b]) == PrintOne(b) + Print([]) == PrintOne(b);
      assert Print([a, b]) == PrintOne(a) + Print([b]);
    }
    ParseIffPrint(options, [a, b]);
    assert RequestedCodes([a, b]) == RequestedCodes([b]);
  }

  lemma AnswersInjective(a: seq<byte>, b: seq<byte>, netif: Netif)
    requires Answers(a, netif) == Answers(b, netif)
    ensures a == b
  {
    assert |a| == |b|;
    forall i | 0 <= i < |a| ensures a[i] == b[i] {
      assert Answers(a, netif)[i] == Answer(a[i], netif);
    }
  }

  lemma FieldInjective(a: seq<byte>, b: seq<byte>, kind: byte, kind': byte, netif: Netif)
    requires forall i :: 0 <= i < |a| ==> a[i] in {SUBNET_MASK, ROUTER}
    requires forall i :: 0 <= i < |b| ==> b[i] in {SUBNET_MASK, ROUTER}
    requires Fits(a) && Fits(b)
    requires ReplyField(kind, a, netif) == ReplyField(kind', b, netif)
    ensures a == b && kind == kind'
  {
    ReplyParses(kind, a, netif);
    ReplyParses(kind', b, netif);
    var x, y := ReplyOptions(kind, a, netif), ReplyOptions(kind', b, netif);
    assert x[0] == y[0];
    assert Answers(a, netif) == x[1..|x| - 1];
    assert Answers(b, netif) == y[1..|y| - 1];
    AnswersInjective(a, b, netif);
  }

  /** Non-interference, both ways: two requests get the same reply exactly when they agree on
      what the server looks at. Nothing else of a request can show in its reply. */
  lemma ReplyDependsOnly(a: Packet, b: Packet, kind: byte, kind': byte, netif: Netif)
    requires WellFormed(a) && WellFormed(b) && Fits(ServedBy(a)) && Fits(ServedBy(b))
    ensures Reply(a, kind, netif) == Reply(b, kind', netif) <==> SameToServer(a, b) && kind == kind'
  {
    var x, y := Reply(a, kind, netif), Reply(b, kind', netif);
    if x == y {
      FieldInjective(ServedBy(a), ServedBy(b), kind, kind', netif);
      assert a.hdr.chaddr[..a.hdr.hlen] == x.hdr.chaddr[..a.hdr.hlen];
      assert b.hdr.chaddr[..b.hdr.hlen] == y.hdr.chaddr[..b.hdr.hlen];
    }
  }

  function Le16(x: uint16): seq<byte> {
    [x % 0x100, x / 0x100]
  }

  function Le32(x: uint32): seq<byte> {
    [x % 0x100, x / 0x100 % 0x100, x / 0x100 / 0x100 % 0x100, x / 0x100 / 0x100 / 0x100]
  }

  function HeaderBytes(h: Header): (bytes: seq<byte>) {
    [h.op, h.htype, h.hlen, h.hops] + Le32(h.xid) + Le16(h.secs) + Le16(h.flags)
    + Le32(h.ciaddr) + Le32(h.yiaddr) + Le32(h.siaddr) + Le32(h.giaddr)
    + h.chaddr + h.sname + h.file + h.magicCookie
  }

  /** The bytes of the struct in memory, which are what `sendto` is given. */
  function Wire(p: Packet): (wire: seq<byte>) {
    HeaderBytes(p.hdr) + p.options
  }

  lemma LowByte(b: byte, rest: nat)
    ensures (b + 0x100 * rest) % 0x100 == b && (b + 0x100 * rest) / 0x100 == rest
  {
  }

  /** The low byte comes first. */
  lemma LittleEndian(x: uint16, y: uint32)
    ensures var b: seq<int> := Le16(x); |b| == 2 && b[0] + 0x100 * b[1] == x
    ensures var b: seq<int> := Le32(y);
            |b| == 4 && b[0] + 0x100 * (b[1] + 0x100 * (b[2] + 0x100 * b[3])) == y
  {
  }

  /** Loading a word from memory and storing it keeps its bytes in order. */
  lemma WordBytes(a: Address)
    ensures Le32(LoadWord(a)) == a
  {
    var b1: nat, b2: nat, b3: nat := a[1], a[2], a[3];
    LowByte(a[2], b3);
    LowByte(a[1], b2 + 0x100 * b3);
    LowByte(a[0], b1 + 0x100 * (b2 + 0x100 * b3));
  }

  /** A header in memory: where its fields stand, as in section 2 of RFC 2131. */
  lemma HeaderAt(h: Header)
    requires |h.sname| == 64 && |h.file| == 128 && |h.magicCookie| == 4
    ensures var b := HeaderBytes(h);
            && |b| == 240
            && b[..4] == [h.op, h.htype, h.hlen, h.hops]
            && b[4..8] == Le32(h.xid) && b[8..10] == Le16(h.secs) && b[10..12] == Le16(h.flags)
            && b[12..16] == Le32(h.ciaddr) && b[16..20] == Le32(h.yiaddr)
            && b[20..24] == Le32(h.siaddr) && b[24..28] == Le32(h.giaddr)
            && b[28..44] == h.chaddr && b[44..108] == h.sname && b[108..236] == h.file
            && b[236..] == h.magicCookie
  {
  }

  /** The first 240 bytes of every reply: what is copied from the request, the address 192.168.1.25,
      the magic cookie, and zeros everywhere else. */
  lemma ReplyHeaderBytes(request: Header, opts: seq<Opt>, kind: byte, netif: Netif)
    requires Answerable(request, opts)
    ensures var b, n := Wire(ReplyTo(request, opts, kind, netif)), request.hlen;
            && |b| == 548
            && b[..4] == [2, request.htype, n, 0]
            && b[4..8] == Le32(request.xid) && b[8..10] == Zeros(2) && b[10..12] == Le16(request.flags)
            && b[12..16] == Zeros(4) && b[16..20] == [192, 168, 1, 25] && b[20..24] == Zeros(4)
            && b[24..28] == Le32(request.giaddr)
            && b[28..28 + n] == request.chaddr[..n] && b[28 + n..236] == Zeros(208 - n)
            && b[236..240] == [0x63, 0x82, 0x53, 0x63]
  {
    var reply := ReplyTo(request, opts, kind, netif);
    HeaderAt(reply.hdr);
    WordBytes(OFFER_IP);
    assert forall i :: 0 <= i < 240 ==> Wire(reply)[i] == HeaderBytes(reply.hdr)[i];
  }

  /** What a reply repeats of its request, byte for byte on the wire: hardware type and length, xid,
      flags, giaddr and the hardware address. */
  lemma ReplyEchoes(request: Packet, opts: seq<Opt>, kind: byte, netif: Netif)
    requires Answerable(request.hdr, opts)
    requires |request.hdr.sname| == 64 && |request.hdr.file| == 128 && |request.hdr.magicCookie| == 4
    ensures var a, b, n := Wire(request), Wire(ReplyTo(request.hdr, opts, kind, netif)), request.hdr.hlen;
            && |a| >= 240 && |b| >= 240
            && b[1..3] == a[1..3] && b[4..8] == a[4..8] && b[10..12] == a[10..12] && b[24..28] == a[24..28]
            && b[28..28 + n] == a[28..28 + n]
  {
    var h, g := request.hdr, ReplyTo(request.hdr, opts, kind, netif).hdr;
    HeaderAt(h);
    HeaderAt(g);
    assert forall i :: 0 <= i < 240 ==> Wire(request)[i] == HeaderBytes(h)[i];
    assert forall i :: 0 <= i < 240 ==>
             Wire(ReplyTo(request.hdr, opts, kind, netif))[i] == HeaderBytes(g)[i];
  }

  /** The kind of a reply is its third options byte and shows nowhere else. */
  lemma ReplyFieldKind(served: seq<byte>, kind: byte, kind': byte, netif: Netif)
    requires forall i :: 0 <= i < |served| ==> served[i] in {SUBNET_MASK, ROUTER}
    requires Fits(served)
    ensures ReplyField(kind, served, netif)[2] == kind
    ensures ReplyField(kind', served, netif) == ReplyField(kind, served, netif)[2 := kind']
  {
    var x, y := ReplyOptions(kind, served, netif), ReplyOptions(kind', served, netif);
    assert x[1..] == y[1..];
    assert PrintOne(x[0]) == [DHCP_MESSAGE_TYPE, 1, kind];
    assert PrintOne(y[0]) == [DHCP_MESSAGE_TYPE, 1, kind'];
    assert Print(y) == Print(x)[2 := kind'];
  }

  /** An OFFER and the ACK that follows, to requests the server cannot tell apart, are the same
      548 bytes but for byte 242, the value of the message type option. */
  lemma OfferAndAckAgree(discover: Packet, request: Packet, netif: Netif)
    requires WellFormed(discover) && WellFormed(request) && Fits(ServedBy(discover))
    requires SameToServer(discover, request)
    ensures var offer, ack := Wire(Reply(discover, DHCP_OFFER, netif)), Wire(Reply(request, DHCP_ACK, netif));
            |offer| == 548 && offer[242] == DHCP_OFFER && ack == offer[242 := DHCP_ACK]
  {
    ReplyDependsOnly(discover, request, DHCP_OFFER, DHCP_OFFER, netif);
    ReplyFieldKind(ServedBy(discover), DHCP_OFFER, DHCP_ACK, netif);
  }
}
