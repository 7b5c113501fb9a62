/** `dhcpServer.c`: answering DISCOVER and REQUEST. */
module DhcpServer {
  import opened Wrappers
  import opened Memory
  import opened OptionCodec
  import opened DhcpMessages
  import opened DhcpReplies
  import opened Options

  /** The option list of `msg` is made of live blocks, none of which is a part of `msg`. */
  ghost predicate Owns(msg: DhcpMsg, heap: Heap)
    reads msg, Nodes(msg.list), Blocks(msg.list), heap
  {
    msg.HasList() && Footprint(msg.list) <= heap.live && msg.options !in heap.live
  }

  lemma OwnsList(msg: DhcpMsg, heap: Heap)
    requires Owns(msg, heap)
    ensures msg.HasList() && IsList(msg.opts, msg.list) && IsSegment(msg.list) && Footprint(msg.list) <= heap.live
  {
  }

  /** The header part of `fillDhcpPacket`. */
  method FillHeader(request: DhcpMsg, reply: DhcpMsg, address: Option<Address>)
    requires request.Valid() && reply.Valid() && request != reply && request.hdr.hlen <= 16
    modifies reply`hdr, reply.options
    ensures reply.hdr == FilledHeader(request.hdr, address)
    ensures reply.options[..] == Zeros(OPTIONS_SIZE)
  {
    reply.Clear();
    reply.hdr := reply.hdr.(op := BOOTREPLY);
    reply.hdr := reply.hdr.(htype := request.hdr.htype);
    reply.hdr := reply.hdr.(hlen := request.hdr.hlen);
    reply.hdr := reply.hdr.(xid := request.hdr.xid);
    reply.hdr := reply.hdr.(flags := request.hdr.flags);
    reply.hdr := reply.hdr.(giaddr := request.hdr.giaddr);
    var n := request.hdr.hlen;
    reply.hdr := reply.hdr.(chaddr := request.hdr.chaddr[..n] + reply.hdr.chaddr[n..]);
    reply.hdr := reply.hdr.(magicCookie := MAGIC_COOKIE);
    if address.Some? {
      reply.hdr := reply.hdr.(yiaddr := LoadWord(address.value));
    }
    assert Zeros(16)[n..] == Zeros(16 - n);
  }

  /** The list part of `fillDhcpPacket`: the first option says what kind of message this is. */
  method StartOptions(reply: DhcpMsg, kind: byte, heap: Heap)
    requires reply.Valid() && reply.options !in heap.live
    modifies reply`opts, reply`list, heap
    ensures Owns(reply, heap) && reply.opts != null
    ensures Contents(reply.list) == [Opt(DHCP_MESSAGE_TYPE, [kind])]
    ensures heap.live == old(heap.live) + Footprint(reply.list) && fresh(Footprint(reply.list))
  {
    var typeOption := MallocNode(heap);
    typeOption.option := CreateOption(DHCP_MESSAGE_TYPE, 1, [kind], heap);
    typeOption.next := null;
    reply.opts := typeOption;

    ghost var c := Cell(typeOption, typeOption.option.data, Opt(DHCP_MESSAGE_TYPE, [kind]));
    EmptySegment();
    assert [] + [c] == [c];
    SegmentAppend([], c);
    ViewAppend([], c);
    reply.list := [c];
  }

  /** `fillDhcpPacket`: clears the reply, copies what has to match the request, and starts the
      reply's option list with the message type. */
  method FillDhcpPacket(request: DhcpMsg, reply: DhcpMsg, kind: byte, address: Option<Address>, heap: Heap)
    returns (status: int)
    requires request.Valid() && Owns(request, heap) && request.hdr.hlen <= 16
    requires reply.Valid() && reply.options !in heap.live
    requires request != reply && request.options != reply.options
    modifies reply, reply.options, heap
    ensures status == 1 && Owns(reply, heap) && reply.opts != null
    ensures reply.hdr == FilledHeader(old(request.hdr), address) && reply.options[..] == Zeros(OPTIONS_SIZE)
    ensures Contents(reply.list) == [Opt(DHCP_MESSAGE_TYPE, [kind])]
    ensures heap.live == old(heap.live) + Footprint(reply.list) && fresh(Footprint(reply.list))
    ensures Owns(request, heap) && Footprint(request.list) !! Footprint(reply.list)
  {
    FillHeader(request, reply, address);
    FootprintParts(request.list);
    StartOptions(reply, kind, heap);
    status := 1;
  }

  /** Creates an option and appends it: what each case of the switch in `answerClientRequest`
      and the end of both handlers do. */
  method AppendNew(reply: DhcpMsg, id: byte, data: Address, heap: Heap)
    returns (status: int, ghost grown: set<object>)
    requires Owns(reply, heap) && reply.opts != null
    modifies reply`list, Nodes(reply.list), heap
    ensures status == 1 && Owns(reply, heap) && reply.opts == old(reply.opts)
    ensures Contents(reply.list) == old(Contents(reply.list)) + [Opt(id, data)]
    ensures heap.live == old(heap.live) + grown && fresh(grown)
    ensures Footprint(reply.list) == old(Footprint(reply.list)) + grown
    ensures Nodes(reply.list) <= old(Nodes(reply.list)) + grown
  {
    FootprintParts(reply.list);
    var newOption := CreateOption(id, 4, data, heap);
    assert data[..4] == data;
    ghost var node;
    status, node := AppendOptionToList(reply, newOption, heap, Opt(id, data));
    grown := {newOption.data, node};
  }

  /** One round of the loop of `answerClientRequest`. */
  method AnswerCode(code: byte, reply: DhcpMsg, netif: Netif, heap: Heap) returns (ghost grown: set<object>)
    requires Owns(reply, heap) && reply.opts != null
    modifies reply`list, Nodes(reply.list), heap
    ensures Owns(reply, heap) && reply.opts == old(reply.opts)
    ensures Contents(reply.list) == old(Contents(reply.list)) + AnswerTo(code, netif)
    ensures heap.live == old(heap.live) + grown && fresh(grown)
    ensures Footprint(reply.list) == old(Footprint(reply.list)) + grown
    ensures Nodes(reply.list) <= old(Nodes(reply.list)) + grown
  {
    var status;
    grown := {};
    if code == SUBNET_MASK {
      status, grown := AppendNew(reply, SUBNET_MASK, netif.netmask, heap);
    } else if code == ROUTER {
      status, grown := AppendNew(reply, ROUTER, netif.gw, heap);
    }
  }

  /** `answerClientRequest`: appends an answer for each code it knows, in the order asked for. */
  method AnswerClientRequest(option: DhcpOption, reply: DhcpMsg, netif: Netif, heap: Heap,
                             ghost block: array<byte>, ghost o: Opt)
    returns (ghost grown: set<object>)
    requires option.data == block && Holds(option, block, o)
    requires Owns(reply, heap) && reply.opts != null
    modifies reply`list, Nodes(reply.list), heap
    ensures Owns(reply, heap) && reply.opts == old(reply.opts)
    ensures Contents(reply.list) == old(Contents(reply.list)) + Answers(Served(o.data), netif)
    ensures heap.live == old(heap.live) + grown && fresh(grown)
    ensures Footprint(reply.list) == old(Footprint(reply.list)) + grown
    ensures Nodes(reply.list) <= old(Nodes(reply.list)) + grown
  {
    hide *;
    HoldsData(option, block, o);
    ServedNone(netif);
    var count: nat := 0;
    grown := {};
    while count < option.len
      invariant count <= |o.data| && Owns(reply, heap) && reply.opts == old(reply.opts)
      invariant forall i :: 0 <= i < |o.data| ==> block[i] == o.data[i]
      invariant Contents(reply.list) == old(Contents(reply.list)) + Answers(Served(o.data[..count]), netif)
      invariant heap.live == old(heap.live) + grown && fresh(grown)
      invariant Footprint(reply.list) == old(Footprint(reply.list)) + grown
      invariant Nodes(reply.list) <= old(Nodes(reply.list)) + grown
    {
      ServedStep(o.data, count, netif);
      ghost var more := AnswerCode(option.data[count], reply, netif, heap);
      grown := grown + more;
      count := count + 1;
    }
    assert o.data[..count] == o.data;
  }

  /** Looks up the parameter request list and answers it: lines 256 to 260 and 278 to 282. */
  method AnswerParameters(request: DhcpMsg, reply: DhcpMsg, netif: Netif, heap: Heap)
    returns (ghost grown: set<object>)
    requires Owns(request, heap) && Owns(reply, heap) && reply.opts != null && request != reply
    requires Footprint(request.list) !! Footprint(reply.list)
    modifies reply`list, Nodes(reply.list), heap
    ensures Owns(reply, heap) && reply.opts == old(reply.opts)
    ensures Contents(reply.list)
            == old(Contents(reply.list)) + Answers(Served(RequestedCodes(old(Contents(request.list)))), netif)
    ensures heap.live == old(heap.live) + grown && fresh(grown)
    ensures Footprint(reply.list) == old(Footprint(reply.list)) + grown
    ensures Nodes(reply.list) <= old(Nodes(reply.list)) + grown
  {
    var parameterRequest, k := SearchForOption(request.opts, PARAMETER_REQUEST_LIST, request.list);
    if parameterRequest != null {
      ghost var c := request.list[k];
      grown := AnswerClientRequest(parameterRequest.option, reply, netif, heap, c.block, c.o);
    } else {
      grown := {};
      ServedNone(netif);
    }
  }

  /** Lines 255 to 265, and again 278 to 288: completes the option list of the reply. */
  method CompleteList(request: DhcpMsg, reply: DhcpMsg, netif: Netif, heap: Heap, ghost kind: byte)
    returns (status: int, ghost grown: set<object>)
    requires Owns(request, heap) && Owns(reply, heap) && reply.opts != null && request != reply
    requires Footprint(request.list) !! Footprint(reply.list)
    requires Contents(reply.list) == [Opt(DHCP_MESSAGE_TYPE, [kind])]
    modifies reply`list, Nodes(reply.list), heap
    ensures status == 1 && Owns(reply, heap) && reply.opts == old(reply.opts)
    ensures Contents(reply.list)
            == ReplyOptions(kind, Served(RequestedCodes(old(Contents(request.list)))), netif)
    ensures heap.live == old(heap.live) + grown && fresh(grown)
    ensures Footprint(reply.list) == old(Footprint(reply.list)) + grown
  {
    hide *;
    ghost var more, served := {}, Served(RequestedCodes(Contents(request.list)));
    ReplyOptionsAre(kind, served, netif);
    grown := AnswerParameters(request, reply, netif, heap);
    status, more := AppendNew(reply, IP_ADDRESS_LEASE_TIME, INF_LEASE_TIME, heap);
    grown := grown + more;
  }

  /** Serializing the finished list into the cleared options field gives the field of the reply. */
  method SerializeReply(reply: DhcpMsg, ghost heap: Heap, ghost kind: byte, ghost served: seq<byte>, ghost netif: Netif)
    requires Owns(reply, heap) && reply.opts != null && reply.Valid()
    requires forall i :: 0 <= i < |served| ==> served[i] in {SUBNET_MASK, ROUTER}
    requires Fits(served) && Contents(reply.list) == ReplyOptions(kind, served, netif)
    requires reply.options[..] == Zeros(OPTIONS_SIZE)
    modifies reply.options
    ensures reply.HasList() && reply.options[..] == ReplyField(kind, served, netif)
  {
    FitsIff(kind, served, netif);
    assert forall i :: 0 <= i < OPTIONS_SIZE ==> reply.options[i] == reply.options[..][i];
    SerializeOptionList(reply, heap);
    FieldOf(reply.options[..], kind, served, netif);
  }

  /** What both handlers do after `fillDhcpPacket` (lines 255 to 267, and again 278 to 290). */
  method CompleteReply(request: DhcpMsg, reply: DhcpMsg, netif: Netif, heap: Heap, ghost kind: byte)
    returns (status: int, ghost grown: set<object>)
    requires Owns(request, heap) && Owns(reply, heap) && reply.opts != null && request != reply
    requires reply.Valid() && request.options != reply.options
    requires Footprint(request.list) !! Footprint(reply.list)
    requires Contents(reply.list) == [Opt(DHCP_MESSAGE_TYPE, [kind])]
    requires reply.options[..] == Zeros(OPTIONS_SIZE)
    requires Fits(Served(RequestedCodes(Contents(request.list))))
    modifies reply`list, Nodes(reply.list), reply.options, heap
    ensures status == 1 && reply.HasList()
    ensures var served := Served(RequestedCodes(old(Contents(request.list))));
            && Contents(reply.list) == ReplyOptions(kind, served, netif)
            && reply.options[..] == ReplyField(kind, served, netif)
    ensures heap.live == old(heap.live) + grown && fresh(grown)
    ensures Footprint(reply.list) == old(Footprint(reply.list)) + grown
  {
    hide *;
    ghost var served := Served(RequestedCodes(Contents(request.list)));
    status, grown := CompleteList(request, reply, netif, heap, kind);
    if status == 0 {
      return;
    }
    SerializeReply(reply, heap, kind, served, netif);
  }

  /** `reply` holds the reply to a request with this header and these options, both as a list and
      serialized. */
  ghost predicate IsReply(reply: DhcpMsg, request: Header, opts: seq<Opt>, kind: byte, netif: Netif)
    requires Answerable(request, opts)
    reads reply, reply.options, Nodes(reply.list), Blocks(reply.list)
  {
    && reply.HasList() && Contents(reply.list) == ReplyOptions(kind, Served(RequestedCodes(opts)), netif)
    && reply.Value() == ReplyTo(request, opts, kind, netif)
  }

  lemma FromReply(reply: DhcpMsg, request: Header, opts: seq<Opt>, kind: byte, netif: Netif)
    requires Answerable(request, opts) && IsReply(reply, request, opts, kind, netif)
    ensures IsList(reply.opts, reply.list)
    ensures Packet(reply.hdr, reply.options[..]) == ReplyTo(request, opts, kind, netif)
  {
  }

  lemma IntoReply(reply: DhcpMsg, request: Header, opts: seq<Opt>, kind: byte, netif: Netif)
    requires Answerable(request, opts)
    requires reply.HasList() && reply.hdr == FilledHeader(request, Some(OFFER_IP))
    requires var served := Served(RequestedCodes(opts));
             && Contents(reply.list) == ReplyOptions(kind, served, netif)
             && reply.options[..] == ReplyField(kind, served, netif)
    ensures IsReply(reply, request, opts, kind, netif)
  {
  }

  /** `discoverPacketHandler`: the OFFER. */
  method DiscoverPacketHandler(request: DhcpMsg, reply: DhcpMsg, netif: Netif, heap: Heap,
                               ghost hdr: Header, ghost opts: seq<Opt>)
    returns (status: int)
    requires Owns(request, heap) && request.Valid() && reply.Valid() && request != reply
    requires request.options != reply.options && reply.options !in heap.live
    requires request.hdr == hdr && Contents(request.list) == opts && Answerable(hdr, opts)
    modifies reply, reply.options, heap
    ensures status == 1 && IsReply(reply, hdr, opts, DHCP_OFFER, netif)
    ensures heap.live == old(heap.live) + Footprint(reply.list) && fresh(Footprint(reply.list))
  {
    assert hdr.hlen <= 16 && Fits(Served(RequestedCodes(opts)));
    hide *;
    status := FillDhcpPacket(request, reply, DHCP_OFFER, Some(OFFER_IP), heap);
    if status == 0 {
      return;
    }
    ghost var grown;
    status, grown := CompleteReply(request, reply, netif, heap, DHCP_OFFER);
    IntoReply(reply, hdr, opts, DHCP_OFFER, netif);
  }

  /** `requestPacketHandler`: the ACK. */
  method RequestPacketHandler(request: DhcpMsg, reply: DhcpMsg, netif: Netif, heap: Heap,
                              ghost hdr: Header, ghost opts: seq<Opt>)
    returns (status: int)
    requires Owns(request, heap) && request.Valid() && reply.Valid() && request != reply
    requires request.options != reply.options && reply.options !in heap.live
    requires request.hdr == hdr && Contents(request.list) == opts && Answerable(hdr, opts)
    modifies reply, reply.options, heap
    ensures status == 1 && IsReply(reply, hdr, opts, DHCP_ACK, netif)
    ensures heap.live == old(heap.live) + Footprint(reply.list) && fresh(Footprint(reply.list))
  {
    assert hdr.hlen <= 16 && Fits(Served(RequestedCodes(opts)));
    hide *;
    status := FillDhcpPacket(request, reply, DHCP_ACK, Some(OFFER_IP), heap);
    if status == 0 {
      return;
    }
    ghost var grown;
    status, grown := CompleteReply(request, reply, netif, heap, DHCP_ACK);
    IntoReply(reply, hdr, opts, DHCP_ACK, netif);
  }
}
