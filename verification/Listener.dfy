/** `dhcpListener`: which packets are answered, with what, and what stays allocated afterwards. */
module Listener {
  import opened Wrappers
  import opened Memory
  import opened OptionCodec
  import opened DhcpMessages
  import opened DhcpReplies
  import opened Options
  import opened DhcpServer

  /** Size of the message in front of the magic cookie. */
  const DHCP_PACKET_SIZE := 236

  /** What `recvfrom` leaves: its result and the struct, zero behind the bytes received. */
  datatype Datagram = Datagram(len: int, packet: Packet)

  /** The tests of lines 90 to 95, and the length test of line 98. */
  predicate FrontTests(d: Datagram) {
    && d.len >= DHCP_PACKET_SIZE
    && d.packet.hdr.op == BOOTREQUEST
    && 1 <= d.packet.hdr.hlen <= 16
    && d.len - DHCP_PACKET_SIZE >= 4
  }

  /** The comparison of line 98. The parenthesis of the `memcmp` call is misplaced, so that only the
      first byte of the cookie is compared. */
  predicate CookieTest(cookie: seq<byte>) {
    |cookie| > 0 && cookie[0] == MAGIC_COOKIE[0]
  }

  predicate Accepted(d: Datagram) {
    FrontTests(d) && CookieTest(d.packet.hdr.magicCookie)
  }

  /** The comparison made is the one that was meant exactly for cookies with a wrong first byte or
      with the right other three. */
  lemma CookieTestIff(cookie: Address)
    ensures (CookieTest(cookie) <==> cookie == MAGIC_COOKIE)
            <==> cookie[0] != 0x63 || cookie[1..] == [0x82, 0x53, 0x63]
  {
    assert cookie == [cookie[0]] + cookie[1..];
    assert MAGIC_COOKIE == [0x63] + [0x82, 0x53, 0x63];
  }

  /** A packet that is accepted with a wrong cookie. */
  lemma WrongCookieAccepted()
    ensures var hdr := ZERO_HEADER.(op := BOOTREQUEST, hlen := 6, magicCookie := [0x63, 0, 0, 0]);
            hdr.magicCookie != MAGIC_COOKIE && Accepted(Datagram(548, Packet(hdr, Zeros(OPTIONS_SIZE))))
  {
    assert MAGIC_COOKIE[1] == 0x82;
  }

  function ParsedOptions(d: Datagram): (opts: seq<Opt>) {
    match Parse(d.packet.options)
    case Some(opts) => opts
    case None => []
  }

  function TypeOption(d: Datagram): (data: Option<Data>) {
    FirstData(ParsedOptions(d), DHCP_MESSAGE_TYPE)
  }

  /** What the code can handle without leaving its own memory: an accepted packet has an END on
      an option boundary, is a DISCOVER or a REQUEST if it has a message type at all, and does
      not ask for more answers than fit. */
  predicate Manageable(d: Datagram) {
    |d.packet.options| == OPTIONS_SIZE && (Accepted(d) ==>
      && Parse(d.packet.options).Some?
      && match TypeOption(d)
         case None => true
         case Some(data) =>
           && |data| > 0 && data[0] in {DHCP_DISCOVER, DHCP_REQUEST}
           && Fits(ServedBy(d.packet)))
  }

  function KindFor(typeValue: byte): (kind: byte) {
    if typeValue == DHCP_DISCOVER then DHCP_OFFER else DHCP_ACK
  }

  /** The kind of reply a packet gets, if it gets one. */
  function ReplyKind(d: Datagram): (kind: Option<byte>)
    requires Manageable(d)
  {
    if !Accepted(d) || TypeOption(d).None? then None
    else Some(KindFor(TypeOption(d).value[0]))
  }

  /** The return value of the listener that goes with it. */
  function Status(kind: Option<byte>): int {
    if kind == None then 0 else if kind == Some(DHCP_OFFER) then 1 else 2
  }

  function ReplyPacket(d: Datagram, netif: Netif): (sent: Option<Packet>)
    requires Manageable(d)
  {
    match ReplyKind(d)
    case None => None
    case Some(kind) => Some(Reply(d.packet, kind, netif))
  }

  /** The number of blocks a packet leaves behind: an accepted one without a message type is
      dropped by the `continue` of line 108, with its option list still allocated. */
  function Leaked(d: Datagram): (blocks: nat) {
    if Accepted(d) && TypeOption(d).None? then 2 * |ParsedOptions(d)| else 0
  }

  /** The switch over the message type. */
  method Dispatch(request: DhcpMsg, reply: DhcpMsg, netif: Netif, heap: Heap, typeValue: byte,
                  ghost hdr: Header, ghost opts: seq<Opt>)
    returns (returnStatus: int)
    requires Owns(request, heap) && request.Valid() && reply.Valid() && request != reply
    requires request.options != reply.options && reply.options !in heap.live
    requires request.hdr == hdr && Contents(request.list) == opts && Answerable(hdr, opts)
    requires typeValue in {DHCP_DISCOVER, DHCP_REQUEST}
    modifies reply, reply.options, heap
    ensures returnStatus == Status(Some(KindFor(typeValue)))
    ensures IsReply(reply, hdr, opts, KindFor(typeValue), netif)
    ensures Owns(request, heap)
    ensures heap.live == old(heap.live) + Footprint(reply.list) && fresh(Footprint(reply.list))
  {
    returnStatus := 0;
    FootprintParts(request.list);
    if typeValue == DHCP_DISCOVER {
      var ok := DiscoverPacketHandler(request, reply, netif, heap, hdr, opts);
      if ok != 0 {
        returnStatus := 1;
      }
    } else {
      var ok := RequestPacketHandler(request, reply, netif, heap, hdr, opts);
      if ok != 0 {
        returnStatus := 2;
      }
    }
  }

  /** Lines 141 and 142. */
  method DeleteBoth(request: OptionNode?, reply: OptionNode?, heap: Heap, ghost v: seq<Cell>, ghost w: seq<Cell>)
    requires IsList(request, v) && IsList(reply, w) && Footprint(v) !! Footprint(w)
    requires Footprint(v) <= heap.live && Footprint(w) <= heap.live
    modifies heap, Footprint(v), Footprint(w)
    ensures heap.live == old(heap.live) - Footprint(v) - Footprint(w)
  {
    FootprintParts(w);
    DeleteOptionList(request, heap, v);
    DeleteOptionList(reply, heap, w);
  }

  /** Lines 110 to 139: handles the packet and sends the reply. */
  method Respond(request: DhcpMsg, reply: DhcpMsg, netif: Netif, heap: Heap, typeValue: byte,
                 ghost hdr: Header, ghost opts: seq<Opt>)
    returns (returnStatus: int, sent: Option<Packet>)
    requires Owns(request, heap) && request.Valid() && reply.Valid() && request != reply
    requires request.options != reply.options && reply.options !in heap.live
    requires request.hdr == hdr && Contents(request.list) == opts && Answerable(hdr, opts)
    requires typeValue in {DHCP_DISCOVER, DHCP_REQUEST}
    modifies reply, reply.options, heap
    ensures returnStatus == Status(Some(KindFor(typeValue)))
    ensures sent == Some(ReplyTo(hdr, opts, KindFor(typeValue), netif))
    ensures IsList(request.opts, request.list) && IsList(reply.opts, reply.list)
    ensures heap.live == old(heap.live) + Footprint(reply.list) && fresh(Footprint(reply.list))
  {
    assert Status(Some(KindFor(typeValue))) != 0;
    hide *;
    returnStatus := Dispatch(request, reply, netif, heap, typeValue, hdr, opts);
    FromReply(reply, hdr, opts, KindFor(typeValue), netif);
    OwnsList(request, heap);
    sent := None;
    if returnStatus != 0 {
      sent := Some(Packet(reply.hdr, reply.options[..]));
    }
  }

  /** Lines 110 to 143: the packet has a message type. Sends a reply and frees both lists. */
  method Answer(request: DhcpMsg, reply: DhcpMsg, netif: Netif, heap: Heap, typeValue: byte,
                ghost hdr: Header, ghost opts: seq<Opt>)
    returns (returnStatus: int, sent: Option<Packet>)
    requires Owns(request, heap) && request.Valid() && reply.Valid() && request != reply
    requires request.options != reply.options && reply.options !in heap.live
    requires request.hdr == hdr && Contents(request.list) == opts && Answerable(hdr, opts)
    requires typeValue in {DHCP_DISCOVER, DHCP_REQUEST}
    modifies reply, reply.options, heap, Footprint(request.list)
    ensures returnStatus == Status(Some(KindFor(typeValue)))
    ensures sent == Some(ReplyTo(hdr, opts, KindFor(typeValue), netif))
    ensures heap.live == old(heap.live - Footprint(request.list))
  {
    hide *;
    OwnsList(request, heap);
    ghost var before, v := heap.live, request.list;
    returnStatus, sent := Respond(request, reply, netif, heap, typeValue, hdr, opts);
    ghost var w := reply.list;
    assert before !! Footprint(w);
    DeleteBoth(request.opts, reply.opts, heap, v, w);
  }

  /** Lines 81 to 84: the struct is cleared and a packet received into it. */
  method Receive(d: Datagram, request: DhcpMsg)
    requires |d.packet.options| == OPTIONS_SIZE && request.Valid()
    modifies request, request.options
    ensures request.hdr == d.packet.hdr && request.options[..] == d.packet.options
    ensures request.opts == null && request.list == []
  {
    request.hdr := d.packet.hdr;
    MemCpy(request.options, 0, d.packet.options);
    request.opts := null;
    request.list := [];
    assert request.options[..] == d.packet.options;
  }

  /** Lines 102 to 111: parses the options, looks for the message type and reads its value. */
  method FindType(request: DhcpMsg, heap: Heap) returns (typeValue: Option<byte>)
    requires request.Valid() && request.opts == null && request.list == []
    requires Parse(request.options[..]).Some? && request.options !in heap.live
    modifies request`opts, request`list, heap
    ensures Owns(request, heap) && Contents(request.list) == Parse(request.options[..]).value
    ensures heap.live == old(heap.live) + Footprint(request.list) && fresh(Footprint(request.list))
    ensures match FirstData(Contents(request.list), DHCP_MESSAGE_TYPE)
            case None => typeValue == None
            case Some(data) => typeValue.Some? && (data != [] ==> typeValue.value == data[0])
  {
    EmptySegment();
    var status := ParseDhcpOptionList(request, heap);
    var typeOption, k := SearchForOption(request.opts, DHCP_MESSAGE_TYPE, request.list);
    if typeOption == null {
      return None;
    }
    HoldsData(typeOption.option, request.list[k].block, request.list[k].o);
    typeValue := Some(typeOption.option.data[0]);
  }

  lemma AboutAnswered(d: Datagram, data: Data, netif: Netif)
    requires Manageable(d) && Accepted(d) && TypeOption(d) == Some(data)
    ensures Answerable(d.packet.hdr, ParsedOptions(d)) && Leaked(d) == 0
    ensures |data| > 0 && data[0] in {DHCP_DISCOVER, DHCP_REQUEST}
    ensures Status(ReplyKind(d)) == Status(Some(KindFor(data[0])))
    ensures ReplyPacket(d, netif)
            == Some(ReplyTo(d.packet.hdr, ParsedOptions(d), KindFor(data[0]), netif))
  {
  }

  lemma AboutDropped(d: Datagram, netif: Netif)
    requires Manageable(d) && (!Accepted(d) || TypeOption(d) == None)
    ensures Status(ReplyKind(d)) == 0 && ReplyPacket(d, netif) == None
    ensures Leaked(d) == if Accepted(d) then 2 * |ParsedOptions(d)| else 0
  {
  }

  /** Lines 110 to 143: `data` is the message type option of the packet. */
  method ServeTyped(ghost d: Datagram, typeValue: byte, request: DhcpMsg, reply: DhcpMsg, netif: Netif,
                    heap: Heap, ghost data: Data)
    returns (status: int, sent: Option<Packet>)
    requires Manageable(d) && Accepted(d) && TypeOption(d) == Some(data) && data != [] && typeValue == data[0]
    requires Owns(request, heap) && Contents(request.list) == ParsedOptions(d) && request.hdr == d.packet.hdr
    requires request.Valid() && reply.Valid() && request != reply
    requires request.options != reply.options && reply.options !in heap.live
    modifies reply, reply.options, heap, Footprint(request.list)
    ensures status == Status(ReplyKind(d)) && sent == ReplyPacket(d, netif)
    ensures heap.live == old(heap.live - Footprint(request.list))
  {
    AboutAnswered(d, data, netif);
    hide *;
    status, sent := Answer(request, reply, netif, heap, typeValue, d.packet.hdr, ParsedOptions(d));
  }

  /** Lines 102 to 143, for a packet that passed the tests above. */
  method ServeAccepted(ghost d: Datagram, request: DhcpMsg, reply: DhcpMsg, netif: Netif, heap: Heap)
    returns (status: int, sent: Option<Packet>, ghost leaked: set<object>)
    requires Manageable(d) && Accepted(d) && Parse(request.options[..]) == Some(ParsedOptions(d))
    requires request.Valid() && request.hdr == d.packet.hdr && request.opts == null && request.list == []
    requires reply.Valid() && request != reply && request.options != reply.options
    requires request.options !in heap.live && reply.options !in heap.live
    modifies request`opts, request`list, reply, reply.options, heap
    ensures status == Status(ReplyKind(d)) && sent == ReplyPacket(d, netif)
    ensures heap.live == old(heap.live) + leaked && fresh(leaked) && |leaked| == Leaked(d)
  {
    ghost var opts, data := ParsedOptions(d), TypeOption(d);
    assert data == FirstData(opts, DHCP_MESSAGE_TYPE);
    hide *;
    var typeValue := FindType(request, heap);
    if typeValue == None {
      AboutDropped(d, netif);
      OwnsList(request, heap);
      FootprintSize(request.list);
      status, sent, leaked := 0, None, Footprint(request.list);
    } else {
      AboutAnswered(d, data.value, netif);
      status, sent := ServeTyped(d, typeValue.value, request, reply, netif, heap, data.value);
      leaked := {};
    }
  }

  /** One turn of the loop of `dhcpListener`. Status 0 stands for its `continue`. */
  method ServePacket(d: Datagram, request: DhcpMsg, reply: DhcpMsg, netif: Netif, heap: Heap)
    returns (status: int, sent: Option<Packet>, ghost leaked: set<object>)
    requires Manageable(d) && request.Valid() && reply.Valid()
    requires request != reply && request.options != reply.options
    requires request.options !in heap.live && reply.options !in heap.live
    modifies request, request.options, reply, reply.options, heap
    ensures status == Status(ReplyKind(d)) && sent == ReplyPacket(d, netif)
    ensures heap.live == old(heap.live) + leaked && fresh(leaked) && |leaked| == Leaked(d)
  {
    Receive(d, request);
    if d.len < DHCP_PACKET_SIZE
       || request.hdr.op != BOOTREQUEST
       || request.hdr.hlen < 1 || request.hdr.hlen > 16
       || d.len - DHCP_PACKET_SIZE < 4
       || request.hdr.magicCookie == [] || request.hdr.magicCookie[0] != MAGIC_COOKIE[0] {
      AboutDropped(d, netif);
      return 0, None, {};
    }
    status, sent, leaked := ServeAccepted(d, request, reply, netif, heap);
  }

  /** The blocks left behind by a run of packets. */
  function LeakedBy(packets: seq<Datagram>): (blocks: nat) {
    if packets == [] then 0 else LeakedBy(packets[..|packets| - 1]) + Leaked(packets[|packets| - 1])
  }

  lemma LeakedStep(packets: seq<Datagram>, k: nat)
    requires k < |packets|
    ensures LeakedBy(packets[..k + 1]) == LeakedBy(packets[..k]) + Leaked(packets[k])
  {
    assert packets[..k + 1][..k] == packets[..k];
  }

  lemma AboutStatus(d: Datagram, netif: Netif)
    requires Manageable(d)
    ensures Status(ReplyKind(d)) == 0 <==> ReplyKind(d) == None
    ensures ReplyKind(d) == None ==> ReplyPacket(d, netif) == None
  {
  }

  predicate AllManageable(packets: seq<Datagram>) {
    forall i :: 0 <= i < |packets| ==> Manageable(packets[i])
  }

  /** The index of the first packet from `from` on that gets a reply, or the number of packets. */
  function FirstAnswered(packets: seq<Datagram>, from: nat): (k: nat)
    requires from <= |packets| && AllManageable(packets)
    ensures from <= k <= |packets|
    ensures forall i :: from <= i < k ==> ReplyKind(packets[i]) == None
    ensures k < |packets| ==> ReplyKind(packets[k]).Some?
    decreases |packets| - from
  {
    if from == |packets| || ReplyKind(packets[from]).Some? then from else FirstAnswered(packets, from + 1)
  }

  lemma Ends(packets: seq<Datagram>)
    requires AllManageable(packets)
    ensures FirstAnswered(packets, |packets|) == |packets| && LeakedBy(packets[..0]) == 0
  {
  }

  lemma TurnOf(packets: seq<Datagram>, k: nat, netif: Netif)
    requires AllManageable(packets) && k < |packets|
    ensures Manageable(packets[k])
    ensures LeakedBy(packets[..k + 1]) == LeakedBy(packets[..k]) + Leaked(packets[k])
    ensures if Status(ReplyKind(packets[k])) == 0
            then FirstAnswered(packets, k) == FirstAnswered(packets, k + 1) && ReplyPacket(packets[k], netif) == None
            else FirstAnswered(packets, k) == k
  {
    LeakedStep(packets, k);
    AboutStatus(packets[k], netif);
  }

  lemma LostStep(start: set<object>, lost: set<object>, more: set<object>)
    requires start !! lost && (start + lost) !! more
    ensures |lost + more| == |lost| + |more|
  {
  }

  /** `dhcpListener` on the packets that arrive: it returns at the first packet it has an answer
      for. A `status` of 0 means that all were taken without one. */
  method DhcpListener(packets: seq<Datagram>, request: DhcpMsg, reply: DhcpMsg, netif: Netif, heap: Heap)
    returns (status: int, sent: Option<Packet>, taken: nat, ghost leaked: set<object>)
    requires AllManageable(packets)
    requires request.Valid() && reply.Valid() && request != reply && request.options != reply.options
    requires request.options !in heap.live && reply.options !in heap.live
    modifies request, request.options, reply, reply.options, heap
    ensures var k := FirstAnswered(packets, 0);
            if k < |packets| then
              taken == k + 1 && status == Status(ReplyKind(packets[k])) && sent == ReplyPacket(packets[k], netif)
            else
              taken == k && status == 0 && sent == None
    ensures taken <= |packets| && |leaked| == LeakedBy(packets[..taken])
    ensures heap.live == old(heap.live) + leaked && fresh(leaked)
  {
    hide *;
    Ends(packets);
    ghost var all := FirstAnswered(packets, 0);
    status, sent, taken, leaked := 0, None, 0, {};
    while status == 0 && taken < |packets|
      invariant taken <= |packets|
      invariant if status == 0 then sent == None && FirstAnswered(packets, taken) == all
                else taken == all + 1 && Manageable(packets[all])
                     && status == Status(ReplyKind(packets[all])) && sent == ReplyPacket(packets[all], netif)
      invariant heap.live == old(heap.live) + leaked && fresh(leaked) && |leaked| == LeakedBy(packets[..taken])
    {
      TurnOf(packets, taken, netif);
      ghost var more;
      status, sent, more := ServePacket(packets[taken], request, reply, netif, heap);
      LostStep(old(heap.live), leaked, more);
      taken, leaked := taken + 1, leaked + more;
    }
  }

  /** A run leaves nothing behind exactly when every packet it accepted either had a message type
      or no option at all. In particular a packet that is answered is never at fault. */
  lemma {:induction false} BalancedIff(packets: seq<Datagram>)
    requires AllManageable(packets)
    ensures LeakedBy(packets) == 0 <==>
            forall i :: 0 <= i < |packets| ==>
              Accepted(packets[i]) && ParsedOptions(packets[i]) != [] ==> TypeOption(packets[i]).Some?
  {
    if packets != [] {
      var front := packets[..|packets| - 1];
      BalancedIff(front);
      assert packets == front + [packets[|packets| - 1]];
    }
  }

  /** A packet that does leak: its only option is an empty host name. */
  lemma HostNameOnlyLeaks(d: Datagram)
    requires Accepted(d) && [12, 0, END] <= d.packet.options
    ensures Leaked(d) == 2
  {
    assert PrintOne(Opt(12, [])) == [12, 0];
    assert Print([Opt(12, [])]) == PrintOne(Opt(12, [])) + Print([]);
    ParseIffPrint(d.packet.options, [Opt(12, [])]);
  }

  /** A packet without options, of exactly the length the tests ask for, passes them and has the
      parser run out of the field: the struct is zero behind what was received, and a field of
      zeros is one empty option after the other without an END. */
  lemma BareHeaderOverruns(hdr: Header)
    requires hdr.op == BOOTREQUEST && 1 <= hdr.hlen <= 16 && hdr.magicCookie == MAGIC_COOKIE
    ensures var d := Datagram(240, Packet(hdr, Zeros(OPTIONS_SIZE))); Accepted(d) && !Manageable(d)
  {
    ParsedHasEnd(Zeros(OPTIONS_SIZE));
  }

  /** A DISCOVER that asks n times for the subnet mask is accepted and parsed like any other; with
      n = 50 the reply runs over the end of its options field. */
  lemma RequestThatOverflows(d: Datagram, n: nat)
    requires Accepted(d) && |d.packet.options| == OPTIONS_SIZE
    requires n <= 255 && Asking(seq(n, i => SUBNET_MASK)) <= d.packet.options
    ensures Parse(d.packet.options).Some? && TypeOption(d) == Some([DHCP_DISCOVER])
    ensures Manageable(d) <==> n <= 49
  {
    AskingParses(d.packet.options, seq(n, i => SUBNET_MASK));
    RepeatedMask(n);
  }

  /** What the listener does with a packet, in numbers: it is answered if it is at least 240 bytes
      long, is a request (1), has a hardware address of 1 to 16 bytes, a cookie that starts with 63
      and an option 53. A DISCOVER (1) is answered with an OFFER (2) and the status 1, a REQUEST (3)
      with an ACK (5) and the status 2. */
  lemma AnsweredWith(d: Datagram, netif: Netif)
    requires Manageable(d)
    ensures var h, reply := d.packet.hdr, ReplyPacket(d, netif);
            var answered := reply.Some?;
            && (answered <==> d.len >= 240 && h.op == 1 && 1 <= h.hlen <= 16
                              && |h.magicCookie| > 0 && h.magicCookie[0] == 0x63
                              && FirstData(Parse(d.packet.options).value, 53).Some?)
            && (!answered ==> Status(ReplyKind(d)) == 0)
            && (answered ==>
                  var kind := FirstData(Parse(d.packet.options).value, 53).value[0];
                  && kind in {1, 3}
                  && (kind == 1 ==> Status(ReplyKind(d)) == 1 && reply.value.options[..3] == [53, 1, 2])
                  && (kind == 3 ==> Status(ReplyKind(d)) == 2 && reply.value.options[..3] == [53, 1, 5]))
  {
    if ReplyPacket(d, netif).Some? {
      ReplyBytes(ReplyKind(d).value, ServedBy(d.packet), netif);
    }
  }

  lemma MaskAndRouterParses(options: seq<byte>, kind: byte)
    requires [53, 1, kind, 55, 2, 1, 3, 255] <= options
    ensures Parse(options).Some? && FirstData(Parse(options).value, 53) == Some([kind])
    ensures Served(RequestedCodes(Parse(options).value)) == [1, 3]
  {
    var a, b := Opt(53, [kind]), Opt(55, [1, 3]);
    assert Print([a, b]) + [END] == [53, 1, kind, 55, 2, 1, 3, 255] by {
      assert PrintOne(a) == [53, 1, kind] && PrintOne(b) == [55, 2, 1, 3];
      assert Print([b]) == PrintOne(b) + Print([]) == PrintOne(b);
      assert Print([a, b]) == PrintOne(a) + Print([b]);
    }
    ParseIffPrint(options, [a, b]);
    RequestedFirst([a, b], 1);
    FirstDataAt([a, b], 53, 0);
    ServedOne(1);
    ServedOne(3);
    ServedConcat([1], [3]);
    assert [1] + [3] == [1, 3];
  }

  lemma MaskAndRouterField(kind: byte, netif: Netif)
    ensures Fits([1, 3])
    ensures ReplyField(kind, [1, 3], netif)
            == [53, 1, kind] + [1, 4] + netif.netmask + [3, 4] + netif.gw
               + [51, 4, 255, 255, 255, 255, 255] + Zeros(286)
  {
    var served: seq<byte> := [1, 3];
    var field := ReplyField(kind, served, netif);
    ReplyBytes(kind, served, netif);
    assert served[0] == 1 && served[1] == 3;
    assert field[3..9] == [1, 4] + netif.netmask;
    assert field[9..15] == [3, 4] + netif.gw;
    assert field == field[..3] + field[3..9] + field[9..15] + field[15..21] + [field[21]] + field[22..];
  }

  /** The exchange of a client that asks for the mask and the router, byte by byte. */
  lemma MaskAndRouterAnswered(d: Datagram, netif: Netif, kind: byte)
    requires Accepted(d) && |d.packet.options| == 308 && kind in {1, 3}
    requires [53, 1, kind, 55, 2, 1, 3, 255] <= d.packet.options
    ensures Manageable(d) && ReplyPacket(d, netif).Some?
    ensures ReplyPacket(d, netif).value.options
            == [53, 1, if kind == 1 then 2 else 5] + [1, 4] + netif.netmask + [3, 4] + netif.gw
               + [51, 4, 255, 255, 255, 255, 255] + Zeros(286)
  {
    hide PrintOne, Print, Served, ReplyField, ParseFrom, FirstData;
    MaskAndRouterParses(d.packet.options, kind);
    MaskAndRouterField(if kind == 1 then 2 else 5, netif);
  }
}
