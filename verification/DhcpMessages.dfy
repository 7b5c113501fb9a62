/** `dhcp.h`: a DHCP message as it goes over the wire, together with its parsed options. */
module DhcpMessages {
  import opened Memory
  import opened OptionCodec

  /** `dhcp_option`: the data block is allocated with one byte to spare. */
  datatype DhcpOption = DhcpOption(id: byte, len: byte, data: array?<byte>)

  /** `dhcp_option_list`. */
  class OptionNode {
    var option: DhcpOption
    var next: OptionNode?

    /** A freshly allocated node: nothing is known about its fields. */
    constructor () {
    }
  }

  /** One element of a list: its node, its data block and the option it holds. */
  datatype Cell = Cell(node: OptionNode, block: array<byte>, o: Opt)

  ghost function Contents(v: seq<Cell>): (opts: seq<Opt>)
    ensures |opts| == |v| && forall i :: 0 <= i < |v| ==> opts[i] == v[i].o
  {
    seq(|v|, i requires 0 <= i < |v| => v[i].o)
  }

  ghost function Nodes(v: seq<Cell>): set<OptionNode> {
    if v == [] then {} else Nodes(v[..|v| - 1]) + {v[|v| - 1].node}
  }

  ghost function Blocks(v: seq<Cell>): set<array<byte>> {
    if v == [] then {} else Blocks(v[..|v| - 1]) + {v[|v| - 1].block}
  }

  /** Everything `malloc` returned for the list. */
  ghost function Footprint(v: seq<Cell>): set<object> {
    var nodes: set<object>, blocks: set<object> := Nodes(v), Blocks(v);
    nodes + blocks
  }

  /** The option struct points to `block`, which holds the data of `o`. */
  ghost predicate Holds(option: DhcpOption, block: array<byte>, o: Opt)
    reads block
  {
    && option == DhcpOption(o.id, |o.data|, block)
    && block.Length == |o.data| + 1
    && block[..|o.data|] == o.data
  }

  lemma HoldsData(option: DhcpOption, block: array<byte>, o: Opt)
    requires Holds(option, block, o)
    ensures option.data == block && option.len == |o.data| && block.Length > |o.data|
    ensures forall i :: 0 <= i < |o.data| ==> block[i] == o.data[i]
  {
    forall i | 0 <= i < |o.data| ensures block[i] == o.data[i] {
      assert block[..|o.data|][i] == block[i];
    }
  }

  /** The nodes follow each other and hold the options in order, and no node and no block occurs
      twice. Nothing is said about where the last node points. */
  ghost predicate IsSegment(v: seq<Cell>)
    reads Nodes(v), Blocks(v)
  {
    v == [] ||
    var front, last := v[..|v| - 1], v[|v| - 1];
    && IsSegment(front)
    && (front != [] ==> front[|front| - 1].node.next == last.node)
    && Holds(last.node.option, last.block, last.o)
    && last.node !in Nodes(front) && last.block !in Blocks(front)
  }

  /** `head` is a proper list: a segment that ends in NULL. */
  ghost predicate IsList(head: OptionNode?, v: seq<Cell>)
    reads Nodes(v), Blocks(v)
  {
    && IsSegment(v)
    && (if v == [] then head == null else head == v[0].node && v[|v| - 1].node.next == null)
  }

  /** A list of n options is made of 2n different blocks. */
  lemma {:induction false} FootprintSize(v: seq<Cell>)
    requires IsSegment(v)
    ensures |Nodes(v)| == |Blocks(v)| == |v| && |Footprint(v)| == 2 * |v|
  {
    if v != [] {
      var front, last := v[..|v| - 1], v[|v| - 1];
      FootprintSize(front);
      assert |Nodes(v)| == |Nodes(front)| + 1 && |Blocks(v)| == |Blocks(front)| + 1;
      var nodes: set<object>, blocks: set<object> := Nodes(v), Blocks(v);
      assert nodes !! blocks;
    }
  }

  lemma EmptySegment()
    ensures IsSegment([]) && Nodes([]) == {} && Footprint([]) == {} && Contents([]) == []
  {
  }

  lemma IntoList(v: seq<Cell>)
    requires IsSegment(v) && v != [] && v[|v| - 1].node.next == null
    ensures IsList(v[0].node, v)
  {
  }

  lemma FromList(head: OptionNode?, v: seq<Cell>)
    requires IsList(head, v)
    ensures IsSegment(v)
    ensures if v == [] then head == null else head == v[0].node && v[|v| - 1].node.next == null
  {
  }

  lemma FootprintParts(v: seq<Cell>)
    ensures forall n :: n in Nodes(v) ==> n in Footprint(v)
    ensures forall b :: b in Blocks(v) ==> b in Footprint(v)
  {
  }

  lemma ViewAppend(v: seq<Cell>, c: Cell)
    ensures Nodes(v + [c]) == Nodes(v) + {c.node} && Blocks(v + [c]) == Blocks(v) + {c.block}
    ensures Footprint(v + [c]) == Footprint(v) + {c.node, c.block}
    ensures Contents(v + [c]) == Contents(v) + [c.o]
  {
    assert (v + [c])[..|v|] == v;
  }

  lemma FootprintStep(v: seq<Cell>, k: nat)
    requires k < |v|
    ensures Footprint(v[..k + 1]) == Footprint(v[..k]) + {v[k].node, v[k].block}
  {
    assert v[..k + 1] == v[..k] + [v[k]];
    ViewAppend(v[..k], v[k]);
  }

  lemma SegmentAppend(v: seq<Cell>, c: Cell)
    requires IsSegment(v)
    requires v != [] ==> v[|v| - 1].node.next == c.node
    requires Holds(c.node.option, c.block, c.o)
    requires c.node !in Nodes(v) && c.block !in Blocks(v)
    ensures IsSegment(v + [c])
  {
    assert (v + [c])[..|v|] == v;
  }

  /** What a segment says about its k-th node. */
  lemma {:induction false} SegmentAt(v: seq<Cell>, k: nat)
    requires IsSegment(v) && k < |v|
    ensures k + 1 < |v| ==> v[k].node.next == v[k + 1].node
    ensures v[k].node.option.data == v[k].block && Holds(v[k].node.option, v[k].block, v[k].o)
    ensures v[k].node in Nodes(v) && v[k].block in Blocks(v)
    ensures v[k].node !in Nodes(v[..k]) && v[k].block !in Blocks(v[..k])
  {
    var front := v[..|v| - 1];
    if k < |v| - 1 {
      SegmentAt(front, k);
      assert front[..k] == v[..k];
    }
  }

  lemma {:induction false} CellIn(v: seq<Cell>, k: nat)
    requires k < |v|
    ensures v[k].node in Nodes(v) && v[k].block in Blocks(v)
  {
    if k < |v| - 1 {
      CellIn(v[..|v| - 1], k);
    }
  }

  /** The k-th node holds its block and points to the next one, or to NULL. */
  ghost predicate LinkedAt(v: seq<Cell>, k: nat)
    requires k < |v|
    reads v[k].node
  {
    && v[k].node.option.data == v[k].block
    && v[k].node.next == if k + 1 < |v| then v[k + 1].node else null
  }

  lemma FromLinked(v: seq<Cell>, k: nat)
    requires k < |v| && LinkedAt(v, k)
    ensures v[k].node.option.data == v[k].block
    ensures v[k].node.next == if k + 1 < |v| then v[k + 1].node else null
  {
  }

  /** What makes it possible to free a list node by node: the links, and that all nodes and blocks
      are different. */
  lemma ListLinks(head: OptionNode?, v: seq<Cell>)
    requires IsList(head, v)
    ensures forall i :: 0 <= i < |v| ==> LinkedAt(v, i)
    ensures forall i, j :: 0 <= i < j < |v| ==> v[i].node != v[j].node
    ensures forall i :: 0 <= i < |v| ==>
              && v[i].node in Footprint(v) && v[i].node !in Footprint(v[..i])
              && v[i].block in Footprint(v) && v[i].block !in Footprint(v[..i])
  {
    forall i | 0 <= i < |v|
      ensures LinkedAt(v, i)
      ensures v[i].node in Nodes(v) && v[i].node !in Nodes(v[..i])
      ensures v[i].block in Blocks(v) && v[i].block !in Blocks(v[..i])
    {
      SegmentAt(v, i);
    }
    forall i, j | 0 <= i < j < |v| ensures v[i].node != v[j].node {
      CellIn(v[..j], i);
    }
  }

  /** `uint16_t` and `uint32_t`. */
  type uint16 = x: int | 0 <= x < 0x1_0000
  type uint32 = x: int | 0 <= x < 0x1_0000_0000

  const OPTIONS_SIZE: nat := 308

  function Zeros(n: nat): (zeros: seq<byte>)
    ensures |zeros| == n && forall i :: 0 <= i < n ==> zeros[i] == 0
  {
    seq(n, i => 0)
  }

  /** `uint8_t chaddr[16]`. */
  type HwAddress = a: seq<byte> | |a| == 16 witness Zeros(16)

  /** The part of `struct dhcp_message` in front of its options field. */
  datatype Header = Header(
    op: byte, htype: byte, hlen: byte, hops: byte,
    xid: uint32, secs: uint16, flags: uint16,
    ciaddr: uint32, yiaddr: uint32, siaddr: uint32, giaddr: uint32,
    chaddr: HwAddress, sname: seq<byte>, file: seq<byte>, magicCookie: seq<byte>)

  /** The value of a `struct dhcp_message`. */
  datatype Packet = Packet(hdr: Header, options: seq<byte>)

  const ZERO_HEADER := Header(0, 0, 0, 0, 0, 0, 0, 0, 0, 0, 0,
                              Zeros(16), Zeros(64), Zeros(128), Zeros(4))

  /** `struct dhcp_msg`: the message, of which the options field is written through a moving
      pointer, and its options as a list on the heap. */
  class DhcpMsg {
    var hdr: Header
    const options: array<byte>
    var opts: OptionNode?
    ghost var list: seq<Cell>

    constructor ()
      ensures Valid() && HasList() && list == [] && fresh(options)
    {
      hdr := ZERO_HEADER;
      options := new byte[OPTIONS_SIZE];
      opts, list := null, [];
    }

    ghost predicate Valid() {
      options.Length == OPTIONS_SIZE
    }

    ghost function Value(): Packet
      reads this, options
    {
      Packet(hdr, options[..])
    }

    /** `opts` points to the list `list`, none of whose blocks is a part of the struct itself. */
    ghost predicate HasList()
      reads this, Nodes(list), Blocks(list)
    {
      IsList(opts, list) && options !in Blocks(list)
    }

    /** `memset(&hdr, 0, sizeof(hdr))`. */
    method Clear()
      requires Valid()
      modifies this`hdr, options
      ensures Value() == Packet(ZERO_HEADER, Zeros(OPTIONS_SIZE))
    {
      hdr := ZERO_HEADER;
      forall i | 0 <= i < options.Length {
        options[i] := 0;
      }
      assert options[..] == Zeros(OPTIONS_SIZE);
    }
  }
}
