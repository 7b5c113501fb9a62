/** `options.c`: DHCP options as a linked list on the heap. */
module Options {
  import opened Wrappers
  import opened Memory
  import opened OptionCodec
  import opened DhcpMessages

  method MallocNode(heap: Heap) returns (node: OptionNode)
    modifies heap
    ensures fresh(node)
    ensures heap.live == old(heap.live) + {node}
  {
    node := new OptionNode();
    heap.live := heap.live + {node};
  }

  /** `createOption`: copies the first `len` bytes of `data` into a block of its own. */
  method CreateOption(id: byte, len: byte, data: seq<byte>, heap: Heap) returns (option: DhcpOption)
    requires len <= |data|
    modifies heap
    ensures option.data != null && fresh(option.data)
    ensures Holds(option, option.data, Opt(id, data[..len]))
    ensures heap.live == old(heap.live) + {option.data}
  {
    var n: nat := len;
    var block := heap.MallocBytes(n + 1);
    MemCpy(block, 0, data[..n]);
    option := DhcpOption(id, len, block);
  }

  /** The body of the loop of `deleteOptionList`: gives a node and its data block back. */
  method FreeNode(ptr: OptionNode, heap: Heap, ghost block: array<byte>)
    requires ptr in heap.live && block in heap.live && ptr.option.data == block
    modifies heap, ptr, block
    ensures heap.live == old(heap.live) - {ptr, block}
  {
    if ptr.option.data != null {
      heap.Free(ptr.option.data);
    }
    heap.Free(ptr);
  }

  /** `deleteOptionList`: every node and every data block is freed, each exactly once. The link of
      a node is read before the node is freed; afterwards it would be gone. */
  method DeleteOptionList(head: OptionNode?, heap: Heap, ghost v: seq<Cell>)
    requires IsList(head, v)
    requires Footprint(v) <= heap.live
    modifies heap, Footprint(v)
    ensures heap.live == old(heap.live) - Footprint(v)
  {
    FromList(head, v);
    ListLinks(head, v);
    EmptySegment();
    hide *;
    var ptr := head;
    ghost var k := 0;
    assert v[..0] == [];
    while ptr != null
      invariant 0 <= k <= |v|
      invariant ptr == if k == |v| then null else v[k].node
      invariant forall i :: k <= i < |v| ==> LinkedAt(v, i)
      invariant heap.live == old(heap.live) - Footprint(v[..k])
      decreases |v| - k
    {
      FromLinked(v, k);
      var temp := ptr.next;
      FreeNode(ptr, heap, v[k].block);
      FootprintStep(v, k);
      ptr := temp;
      k := k + 1;
    }
    assert v[..k] == v;
  }

  /** `parseDhcpOption`: reads the option at `at` into a node and returns its size on the wire. */
  method ParseDhcpOption(node: OptionNode, buffer: array<byte>, at: nat, heap: Heap)
    returns (optionLen: nat)
    requires at + SizeAt(buffer[..], at) <= buffer.Length
    modifies node`option, heap
    ensures optionLen == SizeAt(buffer[..], at)
    ensures node.option.data != null && fresh(node.option.data)
    ensures Holds(node.option, node.option.data, OptAt(buffer[..], at))
    ensures heap.live == old(heap.live) + {node.option.data}
  {
    var len: nat := buffer[at + 1];
    var block := heap.MallocBytes(len + 1);
    MemCpy(block, 0, buffer[at + 2..at + 2 + len]);
    node.option := DhcpOption(buffer[at], buffer[at + 1], block);
    optionLen := len + 2;
  }

  /** `seachForOption`: the node of the first option with the given code, or NULL. */
  method SearchForOption(optionList: OptionNode?, optionCode: byte, ghost v: seq<Cell>)
    returns (found: OptionNode?, ghost k: nat)
    requires IsList(optionList, v)
    ensures found == null ==> FirstData(Contents(v), optionCode) == None
    ensures found != null ==>
              && k < |v| && found == v[k].node && v[k].o.id == optionCode
              && Holds(found.option, v[k].block, v[k].o)
              && FirstData(Contents(v), optionCode) == Some(v[k].o.data)
  {
    FromList(optionList, v);
    found := optionList;
    k := 0;
    while found != null
      invariant k <= |v| && IsSegment(v)
      invariant found == if k == |v| then null else v[k].node
      invariant forall i :: 0 <= i < k ==> v[i].o.id != optionCode
      decreases |v| - k
    {
      SegmentAt(v, k);
      if found.option.id == optionCode {
        FirstDataAt(Contents(v), optionCode, k);
        return;
      }
      found := found.next;
      k := k + 1;
    }
  }

  /** `appendOptionToArray`: writes code, length and data at `at` and returns how far to advance. */
  method AppendOptionToArray(buffer: array<byte>, at: nat, option: DhcpOption, ghost o: Opt)
    returns (optionLen: nat)
    requires option.data != null && option.data != buffer && Holds(option, option.data, o)
    requires at + |PrintOne(o)| <= buffer.Length
    modifies buffer
    ensures optionLen == |PrintOne(o)|
    ensures buffer[..at + optionLen] == old(buffer[..at]) + PrintOne(o)
    ensures forall i :: at + optionLen <= i < buffer.Length ==> buffer[i] == old(buffer[i])
  {
    var len: nat := option.len;
    buffer[at] := option.id;
    buffer[at + 1] := option.len;
    MemCpy(buffer, at + 2, option.data[..len]);
    optionLen := len + 2;
  }

  /** `last->next_option = malloc(sizeof(dhcp_option_list))`. */
  method Extend(last: OptionNode, heap: Heap, ghost v: seq<Cell>) returns (node: OptionNode)
    requires IsSegment(v) && v != [] && last == v[|v| - 1].node
    requires Footprint(v) <= heap.live
    modifies last`next, heap
    ensures IsSegment(v) && last.next == node
    ensures fresh(node) && node !in Nodes(v)
    ensures heap.live == old(heap.live) + {node}
  {
    node := MallocNode(heap);
    last.next := node;
  }

  /** Fills the node that already hangs at the end of the segment `v`. */
  method FillNode(node: OptionNode, buffer: array<byte>, at: nat, heap: Heap, ghost v: seq<Cell>)
    returns (optionLen: nat, ghost c: Cell)
    requires at + SizeAt(buffer[..], at) <= buffer.Length
    requires IsSegment(v) && node !in Nodes(v)
    requires v != [] ==> v[|v| - 1].node.next == node
    requires Footprint(v) <= heap.live
    modifies node, heap
    ensures optionLen == SizeAt(buffer[..], at)
    ensures c.node == node && c.o == OptAt(buffer[..], at) && fresh(c.block)
    ensures IsSegment(v + [c]) && node.next == null
    ensures heap.live == old(heap.live) + {c.block}
  {
    optionLen := ParseDhcpOption(node, buffer, at, heap);
    node.next := null;
    c := Cell(node, node.option.data, OptAt(buffer[..], at));
    SegmentAppend(v, c);
  }

  /** The loop of `parseDhcpOptionList` between two rounds: the segment `v` that starts at `first`
      is filled, and `node`, if any, hangs behind it and is the next one to fill. */
  ghost predicate IsPartial(first: OptionNode, node: OptionNode?, v: seq<Cell>)
    reads Nodes(v), Blocks(v)
  {
    && IsSegment(v)
    && (node != null ==> node !in Nodes(v))
    && if v == [] then node == first else v[0].node == first && v[|v| - 1].node.next == node
  }

  /** Everything allocated for a partial list. */
  ghost function Owned(node: OptionNode?, v: seq<Cell>): (owned: set<object>)
    ensures node != null ==> node in owned
  {
    Footprint(v) + if node == null then {} else {node}
  }

  lemma PartialStart(first: OptionNode)
    ensures IsPartial(first, first, []) && Owned(first, []) == {first} && Contents([]) == []
  {
  }

  lemma PartialFinish(first: OptionNode, v: seq<Cell>)
    requires IsPartial(first, null, v)
    ensures IsList(first, v) && Owned(null, v) == Footprint(v) && first in Footprint(v)
  {
    SegmentAt(v, 0);
  }

  /** One round of the loop of `parseDhcpOptionList`: fills `node` and, unless an END follows,
      hangs a new node behind it. */
  method ReadRound(first: OptionNode, node: OptionNode, buffer: array<byte>, at: nat, heap: Heap,
                   ghost bytes: seq<byte>, ghost v: seq<Cell>)
    returns (next: OptionNode?, optionLen: nat, ghost w: seq<Cell>, ghost grown: set<object>)
    requires bytes == buffer[..] && at + SizeAt(bytes, at) < buffer.Length
    requires IsPartial(first, node, v) && Owned(node, v) <= heap.live
    modifies node, heap
    ensures optionLen == SizeAt(bytes, at) > 0
    ensures IsPartial(first, next, w) && Contents(w) == Contents(v) + [OptAt(bytes, at)]
    ensures next == null <==> bytes[at + optionLen] == END
    ensures fresh(grown) && Owned(next, w) == Owned(node, v) + grown
    ensures heap.live == old(heap.live) + grown
  {
    ghost var c;
    optionLen, c := FillNode(node, buffer, at, heap, v);
    ViewAppend(v, c);
    w := v + [c];
    if buffer[at + optionLen] == END {
      next, grown := null, {c.block};
    } else {
      next := Extend(node, heap, w);
      grown := {c.block, next};
    }
  }

  /** The loop of `parseDhcpOptionList`: fills `first` and hangs as many nodes behind it as the
      options field asks for. */
  method ReadOptions(first: OptionNode, buffer: array<byte>, heap: Heap, ghost bytes: seq<byte>)
    returns (ghost v: seq<Cell>)
    requires bytes == buffer[..] && buffer.Length > 0 && bytes[0] != END && Parse(bytes).Some?
    requires first in heap.live
    modifies first, heap
    ensures IsList(first, v) && Parse(bytes) == Some(Contents(v))
    ensures heap.live == old(heap.live) + Footprint(v)
    ensures first in Footprint(v) && fresh(Footprint(v) - {first})
  {
    hide *;
    v := [];
    var node: OptionNode? := first;
    var p: nat := 0;
    PartialStart(first);
    ParseStart(bytes);
    while node != null
      invariant p < buffer.Length && StandsAt(bytes, p, Contents(v))
      invariant node == null <==> bytes[p] == END
      invariant IsPartial(first, node, v)
      invariant fresh(Owned(node, v) - {first})
      invariant heap.live == old(heap.live) + Owned(node, v)
      decreases buffer.Length - p
    {
      ParseStep(bytes, p, Contents(v));
      var optionLen;
      ghost var grown;
      node, optionLen, v, grown := ReadRound(first, node, buffer, p, heap, bytes, v);
      p := p + optionLen;
    }
    ParseFinish(bytes, p, Contents(v));
    PartialFinish(first, v);
  }

  /** `parseDhcpOptionList`: builds the list the options field describes. The caller has to know
      that an END stands on an option boundary inside the field; the code does not check it. */
  method ParseDhcpOptionList(msg: DhcpMsg, heap: Heap) returns (status: int)
    requires msg.Valid() && msg.options !in heap.live
    requires Parse(msg.options[..]).Some?
    modifies msg`opts, msg`list, heap
    ensures var parsed := old(Parse(msg.options[..]).value);
            if parsed == [] then
              status == 0 && msg.opts == old(msg.opts) && msg.list == old(msg.list)
              && heap.live == old(heap.live)
            else
              status == 1 && msg.HasList() && Contents(msg.list) == parsed
              && fresh(Footprint(msg.list))
              && heap.live == old(heap.live) + Footprint(msg.list)
  {
    if msg.options[0] == END {
      return 0;
    }
    var node := MallocNode(heap);
    msg.opts := node;
    msg.list := ReadOptions(node, msg.options, heap, msg.options[..]);
    status := 1;
  }

  /** The first loop of `appendOptionToList`. */
  method LastNode(head: OptionNode?, ghost v: seq<Cell>) returns (temp: OptionNode?)
    requires IsList(head, v)
    ensures temp == if v == [] then null else v[|v| - 1].node
  {
    FromList(head, v);
    hide *;
    temp := null;
    var ptr := head;
    ghost var k := 0;
    while ptr != null
      invariant 0 <= k <= |v| && IsSegment(v)
      invariant ptr == if k == |v| then null else v[k].node
      invariant temp == if k == 0 then null else v[k - 1].node
      decreases |v| - k
    {
      SegmentAt(v, k);
      temp := ptr;
      ptr := ptr.next;
      k := k + 1;
    }
  }

  /** The list part of `appendOptionToList`. */
  method AppendNode(head: OptionNode?, option: DhcpOption, heap: Heap, ghost v: seq<Cell>, ghost o: Opt)
    returns (ghost c: Cell)
    requires IsList(head, v) && head != null && Footprint(v) <= heap.live
    requires option.data != null && Holds(option, option.data, o) && option.data !in Blocks(v)
    modifies Nodes(v), heap
    ensures IsList(head, v + [c]) && c.block == option.data && c.o == o
    ensures heap.live == old(heap.live) + {c.node} && fresh(c.node)
  {
    FromList(head, v);
    SegmentAt(v, |v| - 1);
    hide *;
    var temp := LastNode(head, v);
    var node := Extend(temp, heap, v);
    node.option := option;
    node.next := null;
    c := Cell(node, option.data, o);
    SegmentAppend(v, c);
    IntoList(v + [c]);
  }

  /** `appendOptionToList`: the option struct is copied into a new last node, which from then on
      owns its data block. The list must not be empty: with no node there is nothing to link to. */
  method AppendOptionToList(msg: DhcpMsg, option: DhcpOption, heap: Heap, ghost o: Opt)
    returns (status: int, ghost node: OptionNode)
    requires msg.HasList() && msg.opts != null
    requires option.data != null && Holds(option, option.data, o) && option.data != msg.options
    requires Footprint(msg.list) <= heap.live && option.data !in Blocks(msg.list)
    modifies msg`list, Nodes(msg.list), heap
    ensures status == 1 && msg.HasList() && msg.opts == old(msg.opts)
    ensures heap.live == old(heap.live) + {node} && fresh(node)
    ensures Contents(msg.list) == old(Contents(msg.list)) + [o]
    ensures Footprint(msg.list) == old(Footprint(msg.list)) + {option.data, node}
    ensures Nodes(msg.list) == old(Nodes(msg.list)) + {node}
  {
    ghost var c := AppendNode(msg.opts, option, heap, msg.list, o);
    ViewAppend(msg.list, c);
    msg.list := msg.list + [c];
    node := c.node;
    status := 1;
  }

  /** The call of `appendOptionToArray` in `serializeOptionList`, for the k-th node. */
  method WriteOne(ptr: OptionNode, buffer: array<byte>, at: nat, ghost heap: Heap,
                  ghost v: seq<Cell>, ghost k: nat)
    returns (optionLen: nat)
    requires Footprint(v) <= heap.live
    requires IsSegment(v) && k < |v| && ptr == v[k].node && buffer !in Blocks(v)
    requires at + |PrintOne(v[k].o)| <= buffer.Length
    modifies buffer
    ensures IsSegment(v) && (k + 1 < |v| ==> ptr.next == v[k + 1].node)
    ensures optionLen == |PrintOne(v[k].o)|
    ensures buffer[..at + optionLen] == old(buffer[..at]) + PrintOne(v[k].o)
    ensures forall i :: at + optionLen <= i < buffer.Length ==> buffer[i] == old(buffer[i])
  {
    SegmentAt(v, k);
    optionLen := AppendOptionToArray(buffer, at, ptr.option, v[k].o);
  }

  /** The do-while loop of `serializeOptionList`: returns where the END has to go. */
  method WriteOptions(head: OptionNode?, buffer: array<byte>, ghost heap: Heap, ghost v: seq<Cell>)
    returns (p: nat)
    requires Footprint(v) <= heap.live
    requires IsList(head, v) && head != null
    requires buffer !in Blocks(v) && |Print(Contents(v))| <= buffer.Length
    modifies buffer
    ensures IsList(head, v)
    ensures p == |Print(Contents(v))| && buffer[..p] == Print(Contents(v))
    ensures forall i :: p <= i < buffer.Length ==> buffer[i] == old(buffer[i])
  {
    FromList(head, v);
    hide *;
    p := 0;
    var ptr := head;
    ghost var k, opts := 0, Contents(v);
    PrintPrefix(opts, 0);
    while true
      invariant 0 <= k < |v| == |opts| && ptr == v[k].node && IsSegment(v)
      invariant p <= buffer.Length && buffer[..p] == Print(opts[..k])
      invariant forall i :: p <= i < buffer.Length ==> buffer[i] == old(buffer[i])
      decreases |v| - k
    {
      PrintPrefix(opts, k);
      var optionLen := WriteOne(ptr, buffer, p, heap, v, k);
      p := p + optionLen;
      ptr := ptr.next;
      k := k + 1;
      if ptr == null {
        break;
      }
    }
    assert opts[..k] == opts;
    IntoList(v);
  }

  /** `serializeOptionList`: the do-while loop needs at least one option, and the caller has to
      leave room for the END. Bytes behind the END stay as they were. */
  method SerializeOptionList(reply: DhcpMsg, ghost heap: Heap)
    requires Footprint(reply.list) <= heap.live
    requires reply.Valid() && reply.HasList() && reply.opts != null
    requires |Print(Contents(reply.list))| + 1 <= OPTIONS_SIZE
    modifies reply.options
    ensures reply.HasList()
    ensures var n := |Print(Contents(reply.list))| + 1;
            && reply.options[..n] == Print(Contents(reply.list)) + [END]
            && forall i :: n <= i < OPTIONS_SIZE ==> reply.options[i] == old(reply.options[i])
  {
    var p := WriteOptions(reply.opts, reply.options, heap, reply.list);
    reply.options[p] := END;
  }

  /** Serializes a list and copies the options field into another message. */
  method Transmit(msg: DhcpMsg, copy: DhcpMsg, heap: Heap)
    requires msg.Valid() && copy.Valid() && msg.options != copy.options && copy.options !in heap.live
    requires msg.HasList() && msg.opts != null && Footprint(msg.list) <= heap.live
    requires |Print(Contents(msg.list))| + 1 <= OPTIONS_SIZE
    modifies msg.options, copy.options
    ensures msg.HasList() && Print(Contents(msg.list)) + [END] <= copy.options[..]
  {
    FootprintParts(msg.list);
    SerializeOptionList(msg, heap);
    MemCpy(copy.options, 0, msg.options[..]);
    assert copy.options[..] == msg.options[..];
  }

  /** Printing a list and parsing the bytes gives a second, entirely fresh list with the same
      options in the same order; the first one is left alone. */
  method PrintThenParse(msg: DhcpMsg, copy: DhcpMsg, heap: Heap)
    requires msg.Valid() && copy.Valid() && msg != copy && msg.options != copy.options
    requires msg.HasList() && msg.opts != null && Footprint(msg.list) <= heap.live
    requires AllPrintable(Contents(msg.list)) && |Print(Contents(msg.list))| + 1 <= OPTIONS_SIZE
    requires copy.options !in heap.live
    modifies msg.options, copy`opts, copy`list, copy.options, heap
    ensures msg.HasList() && copy.HasList() && Contents(copy.list) == Contents(msg.list)
    ensures fresh(Footprint(copy.list)) && heap.live == old(heap.live) + Footprint(copy.list)
  {
    ghost var opts := Contents(msg.list);
    assert opts != [];
    hide *;
    Transmit(msg, copy, heap);
    ParseIffPrint(copy.options[..], opts);
    var status := ParseDhcpOptionList(copy, heap);
  }

  /** Parsing a message and printing the list back over it changes none of its bytes. */
  method ParseThenPrint(msg: DhcpMsg, heap: Heap)
    requires msg.Valid() && msg.options !in heap.live
    requires Parse(msg.options[..]).Some? && msg.options[0] != END
    modifies msg`opts, msg`list, msg.options, heap
    ensures msg.HasList() && Parse(old(msg.options[..])) == Some(Contents(msg.list))
    ensures msg.options[..] == old(msg.options[..])
  {
    ghost var bytes := msg.options[..];
    ParseIffPrint(bytes, Parse(bytes).value);
    var status := ParseDhcpOptionList(msg, heap);
    SerializeOptionList(msg, heap);
    ghost var n := |Print(Contents(msg.list))| + 1;
    assert msg.options[..] == msg.options[..n] + msg.options[n..];
  }
}
