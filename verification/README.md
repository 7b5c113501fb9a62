# A verified model of the DHCP application server

The repository is a DHCP server for FreeRTOS on a Zynq UltraScale+ board, followed by an HTTP client
that reports over the same network interface. This project models the application code in
`DhcpApplicationServer/src` and the FreeRTOS macros that decide which task runs next, and proves what
the code does for every input, every run or every reachable state. Where the code falls short of what
it is for, the exact condition under which it does what it should is proved instead, together with an
input for which it does not.

| file | models |
|---|---|
| `Memory.dfy` | the C heap: which blocks are allocated, `malloc`, `free`, `memcpy` |
| `OptionCodec.dfy` | the wire format of DHCP options on values: printer, parser, their inverse theorems |
| `DhcpMessages.dfy` | `dhcp.h`: messages, option nodes, and what it means for nodes to form a list |
| `Options.dfy` | `options.c`: the option list on the heap |
| `DhcpReplies.dfy` | what the server answers, as a function of the request, down to the byte |
| `DhcpServer.dfy` | `dhcpServer.c`: filling the reply, answering parameters, both handlers |
| `Listener.dfy` | `dhcpListener`: which packets are answered, and the balance of allocations |
| `CStrings.dfy` | terminated strings in buffers and the `string.h` functions used |
| `Base64.dfy`, `UrlCoding.dfy`, `Replacing.dfy` | the codecs and the search-and-replace of `stringx.h` |
| `Http.dfy` | `httpApplication.c`: building a POST, splitting a response |
| `RoundRobin.dfy`, `ReadyPriorities.dfy` | `list.h` and `portmacro.h`: whose turn it is |
| `Tasks.dfy` | `main.c`: the hand-over of the socket variable between the two tasks |
| `LinkList.dfy` | `linkList.c`: the generic linked list |

## How it is modelled

Code that changes memory step by step is imperative here too. An option list is a chain of
`OptionNode` objects that point to data blocks; a ghost sequence of cells says which node owns which
block and which option it holds. `Heap.live` is the set of allocated blocks. A block can be freed only
while it is in that set, and nothing is known about a block once it is freed, so that a method that
verifies neither frees twice nor depends on a block it has freed. Buffers are arrays, and every write
into one is proved to stay inside it. Loops are loops with invariants; what each method does is stated
by a function on values, and the properties of the repository are theorems about these functions.

The C code leaves some demands on its callers unwritten. They are preconditions here:

- The option parser does not know where its buffer ends. `Parse` gives the options of the buffers that
  have an END on an option boundary (`OptionCodec.ParseIffPrint`) and is `None` for all others; callers
  must know that it is not.
- `appendOptionToList` and `serializeOptionList` need a list that is not empty, and the serializer
  needs room for what it writes.
- `str_replace` needs a search string that is not empty and memory in which its run stays,
  `base64_decode` a text that is not empty (the size it computes would wrap around), `str_index_of` and
  `get_until` a string that occurs.

## What the code does not do

Each of these is a theorem that says exactly when the code does what it is for.

- **An accepted packet without a message type leaks its option list** (`dhcpServer.c:105-109`).
  `Listener.BalancedIff` says that a run leaves nothing behind exactly when every accepted packet with
  options has a message type; `Listener.HostNameOnlyLeaks` is a packet that leaks two blocks.
- **A packet without options makes the parser leave its field** (`options.c:67-75`): it passes all
  tests, and the zeros behind it hold no END (`Listener.BareHeaderOverruns`). The walk from option to
  option leaves a buffer exactly when `Parse` has no answer for it (`OptionCodec.WalkLeavesIff`), and
  `OptionCodec.ParseIffPrint` says when it has one.
- **A reply can overflow its options field** (`options.c:135-149`): it fits exactly when at most 49
  answers are asked for (`DhcpReplies.FitsIff`). `Listener.RequestThatOverflows` is a packet that is
  accepted and parsed without complaint and asks for more. A client that asks for nothing twice is always
  served (`DhcpReplies.NoRepeatFits`).
- **Only one byte of the magic cookie is compared** (`dhcpServer.c:98`): the parenthesis of the `memcmp`
  call is misplaced. The comment above it promises the whole cookie; the model follows the code.
  `Listener.CookieTestIff` says for which cookies the two comparisons agree, and
  `Listener.WrongCookieAccepted` is a packet for which they do not.
- **`base64_decode` starts from an array that is never initialised** (`stringx.h:196`). Decoding an
  encoded string gives it back exactly when the string has three bytes or more, or the garbage happens
  to be harmless; `Base64.DecodeEncode` says which garbage is, and `Base64.DecodeEncodeAlways` which
  strings do not depend on it.
- **The buffer of `base64_encode` is too small for long strings** (`stringx.h:244`): n + 50 characters
  are enough exactly for n up to 141 and for 143, 144 and 147 (`Base64.EncodeFits`).
- **`str_replace` writes behind its block, and its result depends on what memory held.** It allocates
  no room for the terminator (`stringx.h:154`, `Replacing.AllocatedTooSmall`), and it copies pieces
  without one (line 159) into memory that was never cleared. The result is right exactly when the
  terminators happen to stand there already (`Replacing.ReplacedIff`); it is right whatever memory held
  exactly when all occurrences stand at the front of the subject (`Replacing.AnyGarbageIff`).
  `Replacing.GarbageShows` is an input for which memory matters. For a response, the stored body is
  right whatever memory held exactly when no second separator follows (`Http.StoredBodyIff`), the stored
  headers exactly when there is at most one field (`Http.StoredHeadersIff`), and removing line breaks can make new ones
  (`Http.BreaksGoneIff`, `Http.BreakLeft`).
- **A POST without other header fields is framed wrongly**: the comment at `httpHeader`
  (`httpApplication.h:21-23`) recommends the empty string for fields that are not needed, but the body
  then starts with the rest of an empty line (`Http.EmptyFieldsShiftBody`). `Http.PostFraming` says for
  which fields the body is found.
- **The HTTP task can sleep forever**: a resumption that comes before it suspended itself is lost
  (`Tasks.EarlyResumeIsLost`, `Tasks.EarlyResumeHappens`); `Tasks.HttpRunsIff` says when it goes on.
- **The HTTP task loses a socket when `connect` fails**: it returns without closing it
  (`httpApplication.c:232-236`), and the next call of `socket` overwrites the variable. Every open socket
  is closed in time exactly when that does not happen (`Tasks.NoSocketLostIff`); `Tasks.SocketLost` is a
  run in which it does.

## Model

| member | source | states |
|---|---|---|
| OptionCodec.ParseIffPrint | DhcpApplicationServer/src/options.c:55-149 | Parser and printer define the same relation: a buffer parses to a list of options exactly when it starts with the print of that list and an END, and no code in it is END. |
| OptionCodec.ParsePrintFrom | DhcpApplicationServer/src/options.c:55-87 | Printed options are parsed back unchanged from any place in any buffer, whatever stands before and behind them. |
| OptionCodec.PrintParseFrom | DhcpApplicationServer/src/options.c:104-149 | Printing what was parsed gives the bytes that were read, END included. |
| OptionCodec.ParseEndIsPrintEnd | DhcpApplicationServer/src/options.c:67-85 | The parser goes exactly as far as the print of its result reaches, one END behind it. |
| OptionCodec.ParseIgnoresTail | DhcpApplicationServer/src/options.c:72-75 | Bytes behind the first END on an option boundary do not matter: any buffer that agrees up to there gives the same options and stops at the same place. |
| OptionCodec.PrintInjective | DhcpApplicationServer/src/options.c:136-149 | No option list is serialized as the beginning of another one's field. |
| OptionCodec.ParsedHasEnd | DhcpApplicationServer/src/options.c:67-75 | A buffer without an END is never parsed to the end: the loop has nothing else to stop at. |
| OptionCodec.WalkLeavesIff | DhcpApplicationServer/src/options.c:67-85 | The model has no answer exactly for the buffers that the walk from option to option leaves without meeting an END on a boundary; otherwise that END is where the parser stops. |
| OptionCodec.PrintedOption | DhcpApplicationServer/src/options.c:37-52 | Where an option was printed the parser reads that option and goes on right behind it. |
| OptionCodec.ParseStep | DhcpApplicationServer/src/options.c:69-75 | The step of the parsing loop: one option moves from the unread part to the list, and the next boundary is still inside the buffer. |
| OptionCodec.FirstDataAt | DhcpApplicationServer/src/options.c:90-101 | A node with the code, and none before it, is what the search finds. |
| DhcpMessages.FootprintSize | DhcpApplicationServer/src/dhcp.h:174-187 | A list of n options is made of exactly 2n different blocks: no node or data block is shared and the list has no cycle. |
| DhcpMessages.SegmentAt | DhcpApplicationServer/src/dhcp.h:182-187 | Every node of a list points to the next, owns a block that no earlier node owns, and holds its option in it. |
| DhcpMessages.ListLinks | DhcpApplicationServer/src/options.c:24-33 | What freeing a list node by node rests on: the links, and that nothing still to be visited has been freed. |
| DhcpMessages.DhcpMsg.Clear | DhcpApplicationServer/src/dhcpServer.c:172-175 | Clearing the struct zeroes header and options and leaves the list pointer alone. |
| Memory.MemCpy | DhcpApplicationServer/src/options.c:48-48 | The bytes in front of and behind the copied ones stay as they were. |
| Options.CreateOption | DhcpApplicationServer/src/options.c:4-15 | The option owns a fresh block with its own copy of the first len bytes and one byte to spare. |
| Options.DeleteOptionList | DhcpApplicationServer/src/options.c:18-34 | Exactly the nodes and data blocks of the list stop being allocated, each freed once; freed memory is not looked at. |
| Options.ParseDhcpOption | DhcpApplicationServer/src/options.c:37-52 | The node holds the option that stands at the pointer, in a fresh block, and the returned length is its size on the wire. |
| Options.ReadRound | DhcpApplicationServer/src/options.c:69-83 | The loop keeps a partial list: filled nodes in order, one unfilled node behind them unless an END follows, everything allocated on the way accounted for. |
| Options.ReadOptions | DhcpApplicationServer/src/options.c:67-86 | The loop terminates, never leaves the buffer, and builds a proper list of the options the buffer parses to. |
| Options.ParseDhcpOptionList | DhcpApplicationServer/src/options.c:55-87 | An empty field changes nothing and returns 0; otherwise the message gets an entirely fresh list with exactly the options of the field, and nothing else is allocated. |
| Options.SearchForOption | DhcpApplicationServer/src/options.c:90-101 | The node of the first option with the code, NULL exactly when there is none. |
| Options.AppendOptionToArray | DhcpApplicationServer/src/options.c:104-112 | Code, length and data are added behind what is already written; the rest of the buffer stays as it was. |
| Options.LastNode | DhcpApplicationServer/src/options.c:117-123 | The walk ends at the last node of the list. |
| Options.AppendOptionToList | DhcpApplicationServer/src/options.c:115-133 | The list grows by this option at its end, its data block now belongs to the list, the other nodes keep their place, and one node is allocated. |
| Options.WriteOptions | DhcpApplicationServer/src/options.c:141-146 | The options are printed in list order, and bytes behind them stay as they were. |
| Options.SerializeOptionList | DhcpApplicationServer/src/options.c:136-149 | The field starts with the print of the list and an END, its remaining bytes stay as they were, and the list is intact. |
| Options.PrintThenParse | DhcpApplicationServer/src/options.c:55-149 | Serializing a list and parsing the bytes into another message gives a second, entirely fresh list with the same options in the same order; the first is left alone. |
| Options.ParseThenPrint | DhcpApplicationServer/src/options.c:55-149 | Parsing a message and serializing the list back over its field changes none of its bytes. |
| DhcpReplies.ServedStep | DhcpApplicationServer/src/dhcpServer.c:207-226 | Each requested code adds its answer behind those already given; codes other than 1 and 3 add none. |
| DhcpReplies.ServedOne | DhcpApplicationServer/src/dhcpServer.c:210-224 | Of single codes exactly 1 and 3 are served. |
| DhcpReplies.ServedConcat | DhcpApplicationServer/src/dhcpServer.c:207-226 | The served codes of two request lists in a row are those of the first and then those of the second: order and repetitions are kept. |
| DhcpReplies.RequestedFirst | DhcpApplicationServer/src/dhcpServer.c:256-260 | The codes asked for are the data of the first option 55, and none without one. |
| DhcpReplies.ReplySize | DhcpApplicationServer/src/dhcpServer.c:247-291 | The options of a reply take exactly 10 + 6k bytes for k answers. |
| DhcpReplies.FitsIff | DhcpApplicationServer/src/dhcp.h:170-170 | They fit the 308 bytes of the field exactly when k is at most 49. |
| DhcpReplies.NoRepeatFits | DhcpApplicationServer/src/dhcpServer.c:204-227 | A request list without repetitions gets one answer for each of the codes 1 and 3 it contains, so its reply fits. |
| DhcpReplies.ReplyBytes | DhcpApplicationServer/src/dhcpServer.c:204-267 | The options field of a reply byte by byte, in numbers: 53 1 type, then for each served code 1 4 and the netmask or 3 4 and the gateway, in order, then 51 4 255 255 255 255, 255, zeros. |
| DhcpReplies.ReplyHeaderBytes | DhcpApplicationServer/src/dhcpServer.c:172-198 | The first 240 bytes of every reply: op 2, the copied fields, 192.168.1.25 as the client's address, the cookie, zeros everywhere else. |
| DhcpReplies.ReplyEchoes | DhcpApplicationServer/src/dhcpServer.c:178-185 | What a reply repeats of its request, byte for byte on the wire: hardware type and length, xid, flags, giaddr and the hlen bytes of the hardware address. |
| DhcpReplies.HeaderAt | DhcpApplicationServer/src/dhcp.h:145-169 | Where each field of the struct stands in memory, 240 bytes in all. |
| DhcpReplies.LittleEndian | DhcpApplicationServer/src/dhcp.h:152-160 | Words stand in memory with the low byte first. |
| DhcpReplies.WordBytes | DhcpApplicationServer/src/dhcpServer.c:195-198 | Reading four address bytes as a word and storing the word keeps their order. |
| DhcpReplies.ReplyParses | DhcpApplicationServer/src/dhcpServer.c:266-267 | A client that parses the options field of a reply finds exactly the options the server put in. |
| DhcpReplies.ReplyDependsOnly | DhcpApplicationServer/src/dhcpServer.c:169-227 | Non-interference, both ways: two requests get equal replies exactly when they agree on hardware type and length, xid, flags, giaddr, the hlen bytes of chaddr and the served codes of the first parameter request list. |
| DhcpReplies.OfferAndAckAgree | DhcpApplicationServer/src/dhcpServer.c:247-291 | An OFFER and the ACK to an indistinguishable request are the same 548 bytes, the offered address included, except for byte 242, the value of the message type option. |
| DhcpServer.FillHeader | DhcpApplicationServer/src/dhcpServer.c:172-198 | The header is the one `ReplyHeaderBytes` describes, whatever the reply held before, and the options field is zero. |
| DhcpServer.FillDhcpPacket | DhcpApplicationServer/src/dhcpServer.c:169-200 | In addition the reply gets a fresh list of one option, the message type, that shares nothing with the list of the request. |
| DhcpServer.AppendNew | DhcpApplicationServer/src/dhcpServer.c:212-216 | The reply's list grows by one option with a copy of the data; exactly what was allocated for it becomes part of the list. |
| DhcpServer.AnswerClientRequest | DhcpApplicationServer/src/dhcpServer.c:204-227 | The list grows by the answers to the served codes, in the order asked for, and owns everything allocated. |
| DhcpServer.SerializeReply | DhcpApplicationServer/src/dhcpServer.c:266-266 | The options field of the reply is the one `ReplyBytes` describes. |
| DhcpServer.CompleteReply | DhcpApplicationServer/src/dhcpServer.c:255-267 | From the message type alone to the finished options, as a list and serialized. |
| DhcpServer.DiscoverPacketHandler | DhcpApplicationServer/src/dhcpServer.c:247-268 | The reply is the OFFER to the request, as a list and in its 548 bytes; everything allocated belongs to its list; the request is left alone. |
| DhcpServer.RequestPacketHandler | DhcpApplicationServer/src/dhcpServer.c:271-291 | The same for the ACK. |
| Listener.Answer | DhcpApplicationServer/src/dhcpServer.c:111-143 | A packet with a message type is answered with the reply `AnsweredWith` describes, and both lists are freed: what was allocated for the packet is allocated no more. |
| Listener.ServeAccepted | DhcpApplicationServer/src/dhcpServer.c:102-143 | For every accepted manageable packet, parsing, building the reply and freeing both lists leave the heap as it was, except for the list of a packet without a message type. |
| Listener.ServePacket | DhcpApplicationServer/src/dhcpServer.c:81-143 | The same with the tests in front, for every manageable packet; the return value tells which kind of reply was sent. |
| Listener.FirstAnswered | DhcpApplicationServer/src/dhcpServer.c:79-144 | The packet the listener returns at: the first with a reply, none before it has one. |
| Listener.AnsweredWith | DhcpApplicationServer/src/dhcpServer.c:90-143 | Every manageable packet, in numbers: which ones are answered, that a DISCOVER (1) gets an OFFER (53 1 2) and the status 1, and a REQUEST (3) an ACK (53 1 5) and the status 2. |
| Listener.MaskAndRouterAnswered | DhcpApplicationServer/src/dhcpServer.c:204-291 | The exchange of a client that asks for mask and router: all 308 bytes of the options field it gets. |
| Listener.DhcpListener | DhcpApplicationServer/src/dhcpServer.c:70-145 | Over any sequence of manageable packets: returns at the first that gets a reply, sends exactly that reply, and leaves exactly as many blocks behind as the dropped packets leak. |
| Listener.BalancedIff | DhcpApplicationServer/src/dhcpServer.c:105-109 | A run of manageable packets is balanced exactly when every accepted one with options has a message type. |
| Listener.HostNameOnlyLeaks | DhcpApplicationServer/src/dhcpServer.c:105-109 | A packet whose only option is an empty host name leaks two blocks. |
| Listener.RequestThatOverflows | DhcpApplicationServer/src/dhcpServer.c:204-227 | A DISCOVER that asks n times for the subnet mask is accepted and parsed, and its reply fits exactly when n is at most 49. |
| Listener.BareHeaderOverruns | DhcpApplicationServer/src/dhcpServer.c:81-102 | A packet of 240 bytes, without any option, passes all tests and makes the parser leave the options field. |
| Listener.CookieTestIff | DhcpApplicationServer/src/dhcpServer.c:98-98 | The comparison of the cookie is the one that was meant exactly for cookies whose first byte is wrong or whose other three are right. |
| Listener.WrongCookieAccepted | DhcpApplicationServer/src/dhcpServer.c:90-101 | A packet with the cookie 63 00 00 00 is accepted. |
| Base64.StrChrDigit | DhcpApplicationServer/src/stringx.h:208-211 | Looking up an encoded digit finds its value: no character occurs twice in the alphabet, and the padding not at all. |
| Base64.DigitIs | DhcpApplicationServer/src/stringx.h:228-234 | The digits in numbers: A to Z, a to z, 0 to 9, + and /, as in table 1 of RFC 4648. |
| Base64.BlockIsGroups | DhcpApplicationServer/src/stringx.h:226-237 | The block is the four six-bit groups of the 24 bits, most significant first, as in section 4 of RFC 4648. |
| Base64.TestVectors | DhcpApplicationServer/src/stringx.h:226-269 | Four test vectors from section 10 of RFC 4648. |
| Base64.DecodeThree | DhcpApplicationServer/src/stringx.h:178-186 | Decoding a block puts its three bytes together again. |
| Base64.DecodeGroups | DhcpApplicationServer/src/stringx.h:178-186 | In general the bytes of a block from the first zero on are lost; a block that starts with one adds nothing. |
| Base64.RunEncode | DhcpApplicationServer/src/stringx.h:199-220 | From a cleared array the decoding loop appends any encoded NUL-free string unchanged, for every length. |
| Base64.DecodeEncode | DhcpApplicationServer/src/stringx.h:191-270 | The round trip for every non-empty NUL-free string and every initial content of the array: it holds exactly for three bytes or more, for one if the garbage in in[2] is below 4, for two if in[3] is 0. |
| Base64.DecodeEncodeAlways | DhcpApplicationServer/src/stringx.h:191-270 | A non-empty NUL-free string is given back whatever the array held exactly when it has three bytes or more. |
| Base64.RunIgnoresNoise | DhcpApplicationServer/src/stringx.h:208-218 | Characters outside the alphabet change nothing, from any state of the loop. |
| Base64.DecodeIgnoresNoise | DhcpApplicationServer/src/stringx.h:199-220 | Texts with the same digits and padding in the same order decode to the same bytes. |
| Base64.DecodeStopsAtPad | DhcpApplicationServer/src/stringx.h:203-207 | What stands behind the first padding character does not matter. |
| Base64.DecodeDropsShort | DhcpApplicationServer/src/stringx.h:209-217 | Behind full blocks, up to three more digits without padding add nothing. |
| Base64.EncodeShape | DhcpApplicationServer/src/stringx.h:226-269 | Four characters for every three bytes begun, padding only at the end, (3 - n % 3) % 3 times, no terminator inside. |
| Base64.EncodeFits | DhcpApplicationServer/src/stringx.h:244-244 | The n + 50 characters hold text and terminator exactly for n up to 141 and n = 143, 144, 147. |
| Base64.AppendEncoded | DhcpApplicationServer/src/stringx.h:226-237 | Appends the four characters of a block behind the text in the buffer. |
| Base64.TakeBlock | DhcpApplicationServer/src/stringx.h:253-262 | The next three bytes, filled up with zeros at the end, and how many there were. |
| Base64.Base64Encode | DhcpApplicationServer/src/stringx.h:242-270 | Writes the encoding, in a string of exactly its size, without leaving the buffer when `EncodeFits` says it is large enough. |
| Base64.AppendDecoded | DhcpApplicationServer/src/stringx.h:178-186 | Appends the three bytes of a block, or those in front of the first that is zero. |
| Base64.DecodeRound | DhcpApplicationServer/src/stringx.h:202-219 | One turn of the loop is one step of the decoder's state, and the text written grows no faster than the buffer allows. |
| Base64.Base64Decode | DhcpApplicationServer/src/stringx.h:191-223 | Computes the decoding for whatever the array held at the start, and never leaves its buffer, for every non-empty text. |
| CStrings.StrNCat | DhcpApplicationServer/src/stringx.h:185-185 | The buffer then holds the old text followed by the source up to its first terminator. |
| CStrings.AppendAtEnd | DhcpApplicationServer/src/stringx.h:160-163 | strcpy to the end of the text appends, and keeps what stands behind the new terminator, whatever that is. |
| CStrings.CopyAtEnd | DhcpApplicationServer/src/stringx.h:159-159 | strncpy to the end of the text leaves the text, the piece, and then whatever memory held up to its first terminator; an empty piece changes nothing. |
| UrlCoding.ToHex | DhcpApplicationServer/src/stringx.h:89-93 | A lower-case hexadecimal digit whose value is the low four bits. |
| UrlCoding.CharCode | DhcpApplicationServer/src/stringx.h:103-108 | The code of every character, in numbers: digits, letters and -._~ stand for themselves, the space is +, everything else % and two lower-case hexadecimal digits, the higher one first. |
| UrlCoding.EncodeAlphabet | DhcpApplicationServer/src/stringx.h:103-108 | The characters that occur in encoded text, in numbers. |
| UrlCoding.DecodeEncode | DhcpApplicationServer/src/stringx.h:98-113 | Encoded text can be decoded: an independent reader gets every string back. |
| UrlCoding.EncodeInjective | DhcpApplicationServer/src/stringx.h:98-113 | Different strings have different encodings. |
| UrlCoding.EncodeConcat | DhcpApplicationServer/src/stringx.h:101-110 | The encoding of a concatenation is the concatenation of the encodings. |
| UrlCoding.EncodeShape | DhcpApplicationServer/src/stringx.h:103-108 | Only unreserved characters, plus signs and lower-case percent triples; the exact length, at most 3n. |
| UrlCoding.UrlEncode | DhcpApplicationServer/src/stringx.h:98-113 | Writes the encoding and its terminator into 3n + 1 characters and never beyond. |
| Replacing.Find | DhcpApplicationServer/src/stringx.h:149-149 | The first occurrence from a position on; -1 exactly when there is none. |
| Replacing.SplitIff | DhcpApplicationServer/src/stringx.h:157-163 | Leftmost non-overlapping substitution: the pieces the loop copies are the only ones that give the subject back and of which none hides an earlier occurrence. |
| Replacing.ReplacedLength | DhcpApplicationServer/src/stringx.h:149-153 | The length of the result is the subject's plus the number of occurrences times the difference of the two strings. |
| Replacing.ReplacedNothing | DhcpApplicationServer/src/stringx.h:144-165 | Substitution leaves exactly those subjects unchanged in which the string does not occur, unless it is replaced by itself. |
| Replacing.ReplaceBack | DhcpApplicationServer/src/stringx.h:144-165 | Replacing a string by a character absent from the subject, and that character by the string, restores the subject. |
| Replacing.ReplacedIff | DhcpApplicationServer/src/stringx.h:154-163 | For every initial content of memory with enough room, what str_replace leaves is the substitution exactly when a terminator already stood behind every non-empty piece but the last, at the place where the piece ends in the result. |
| Replacing.UnterminatedIff | DhcpApplicationServer/src/stringx.h:154-163 | In memory without terminators that is so exactly when all occurrences stand at the front of the subject, one directly behind the other. |
| Replacing.AnyGarbageIff | DhcpApplicationServer/src/stringx.h:154-163 | These subjects are exactly the ones substituted correctly whatever memory held. |
| Replacing.ClearedIsRight | DhcpApplicationServer/src/stringx.h:154-163 | In cleared memory every subject is. |
| Replacing.GarbageShows | DhcpApplicationServer/src/stringx.h:157-163 | Replacing b by c in ab gives ac exactly when the second character of memory was a terminator. |
| Replacing.AllocatedTooSmall | DhcpApplicationServer/src/stringx.h:153-163 | What is written, the terminator included, never fits the c characters allocated. |
| Replacing.CountOccurrences | DhcpApplicationServer/src/stringx.h:149-152 | The counting pass finds as many occurrences as the building pass replaces. |
| Replacing.ReplacedSize | DhcpApplicationServer/src/stringx.h:147-154 | The size asked of malloc is the length of the substitution, without a terminator. |
| Replacing.BuildRound | DhcpApplicationServer/src/stringx.h:159-161 | A turn of the building pass moves one piece, what its missing terminator lets in, and the replacement from what is to be done to the result, inside the memory there is. |
| Replacing.StrReplace | DhcpApplicationServer/src/stringx.h:144-165 | Terminates, for every non-empty search string and every initial content of memory in which the run stays, with the text `ReplacedIff` is about. |
| Replacing.StrIndexOf | DhcpApplicationServer/src/stringx.h:39-43 | The offset of the first occurrence. |
| Replacing.GetUntil | DhcpApplicationServer/src/stringx.h:170-174 | The text in front of the first occurrence. |
| Http.CheckHeader | DhcpApplicationServer/src/httpApplication.c:200-219 | Fails exactly without a path; otherwise every missing field gets its default and the others are kept. |
| Http.PrintPacket | DhcpApplicationServer/src/httpApplication.c:184-194 | The buffer then holds the packet `PostFields` and `PostFraming` are about, terminated. |
| Http.PacketFitsIff | DhcpApplicationServer/src/httpApplication.c:170-194 | The packet fits the 1024 characters exactly when fields, body and printed length together have fewer than 966. |
| Http.HttpPost | DhcpApplicationServer/src/httpApplication.c:168-199 | That packet with the defaults filled in, in a string of exactly its size; NULL exactly when there is no path. |
| Http.NumberDecimal | DhcpApplicationServer/src/httpApplication.c:184-189 | The printed Content-Length reads back as the length of the body. |
| Http.PostFields | DhcpApplicationServer/src/httpApplication.c:184-193 | A reader of header lines finds in the packet the request line, host, connection and, as Content-Length, the length of the body; behind these four lines stand the other fields, the empty line and the body. |
| Http.FramingIff | DhcpApplicationServer/src/httpApplication.c:184-193 | Behind any header front made of non-empty lines, the text behind the first empty line is the body exactly when the other fields are not empty, hold no empty line, and neither start nor end with a line break. |
| Http.PostFraming | DhcpApplicationServer/src/httpApplication.c:168-199 | The same for the packets of httpPost; the length that a reader finds announced is then, and only then, the length of what it takes for the body (section 3.3.2 of RFC 7230). |
| Http.EmptyFieldsShiftBody | DhcpApplicationServer/src/httpApplication.h:21-31 | With empty other fields, as the comment recommends, the reader finds a line break and then the body. |
| Http.SearchesAgree | DhcpApplicationServer/src/httpApplication.c:125-131 | Searching for the end of the header from the start and from the end of the status line finds the same place. |
| Http.SplitConserves | DhcpApplicationServer/src/httpApplication.c:124-132 | Status line, raw headers, separator and raw body make up the response again. |
| Http.StoredBodyIff | DhcpApplicationServer/src/httpApplication.c:131-134 | The stored body is the raw body, whatever memory held, exactly when that holds no further separator. |
| Http.StoredHeadersIff | DhcpApplicationServer/src/httpApplication.c:128-129 | The stored headers are the raw headers with the line breaks taken out, whatever memory held, exactly when there is at most one header field. |
| Http.SecondFieldDepends | DhcpApplicationServer/src/httpApplication.c:128-129 | With two header fields they are so exactly when a terminator happened to stand behind the first. |
| Http.BreaksGoneIff | DhcpApplicationServer/src/httpApplication.c:129-129 | Taking the line breaks out of a text leaves no such character exactly when each of them was part of a line break. |
| Http.BreakLeft | DhcpApplicationServer/src/httpApplication.c:129-129 | Otherwise a line break can be left: CR CR LF LF becomes CR LF. |
| Http.SplitResponse | DhcpApplicationServer/src/httpApplication.c:124-139 | The response object holds the status line and what str_replace leaves, in memory with arbitrary contents, of the raw headers and of the tail of the response, with the leftmost non-overlapping line breaks and separators taken out. |
| RoundRobin.TurnsRepeat | freertos10_xilinx_bsp_0/psu_cortexa53_0/include/list.h:277-288 | Turn k + n goes to the same item as turn k. |
| RoundRobin.EachOnce | freertos10_xilinx_bsp_0/psu_cortexa53_0/include/list.h:277-288 | Fairness: among any n consecutive turns each item comes up in exactly one, and it is known in which. |
| RoundRobin.List.GetOwnerOfNextEntry | freertos10_xilinx_bsp_0/psu_cortexa53_0/include/list.h:277-288 | The index moves to the next item in ring order, skipping the end marker, whose owner is never returned; the ring is left alone. |
| RoundRobin.List.TakeTurns | freertos10_xilinx_bsp_0/psu_cortexa53_0/include/list.h:277-288 | Any number of calls in a row returns the owners at the positions `EachOnce` and `TurnsRepeat` are about. |
| RoundRobin.List.TakeRound | freertos10_xilinx_bsp_0/psu_cortexa53_0/include/list.h:277-288 | As many calls as there are items return the owners in ring order and bring the index back to the item it stood at. |
| ReadyPriorities.MapIsSet | freertos10_xilinx_bsp_0/psu_cortexa53_0/include/portmacro.h:205-206 | After any sequence of steps bit p is set exactly when p was recorded and not reset since. |
| ReadyPriorities.ApplyBit | freertos10_xilinx_bsp_0/psu_cortexa53_0/include/portmacro.h:205-206 | A step changes the bit of its own priority and no other. |
| ReadyPriorities.Clz | freertos10_xilinx_bsp_0/psu_cortexa53_0/include/portmacro.h:210-210 | The number of leading zeros: shifting by 31 less that many leaves the single bit 1. |
| ReadyPriorities.HighestReady | freertos10_xilinx_bsp_0/psu_cortexa53_0/include/portmacro.h:205-210 | The priority computed is ready, and no ready priority is greater. |
| ReadyPriorities.ReadyMap.RecordReady | freertos10_xilinx_bsp_0/psu_cortexa53_0/include/portmacro.h:205-205 | The map goes on standing for the set, with p recorded. |
| ReadyPriorities.ReadyMap.ResetReady | freertos10_xilinx_bsp_0/psu_cortexa53_0/include/portmacro.h:206-206 | The map goes on standing for the set, with p reset. |
| ReadyPriorities.ReadyMap.GetHighest | freertos10_xilinx_bsp_0/psu_cortexa53_0/include/portmacro.h:210-210 | The greatest ready priority, whenever there is one. |
| Tasks.RunInv | DhcpApplicationServer/src/main.c:48-81 | The invariant of every reachable state in every interleaving: where each task stands, who opened the socket, and what has happened before. |
| Tasks.RunIff | DhcpApplicationServer/src/main.c:48-81 | The runs are exactly the interleavings in which each task takes its steps in the order of its code and the HTTP task takes none between suspending itself and being resumed. |
| Tasks.HandOverStarts | DhcpApplicationServer/src/main.c:51-59 | The DHCP task leaves its loop exactly when the listener has returned 2; it closes, resumes and suspends only after that. |
| Tasks.HandOverIsSafe | DhcpApplicationServer/src/main.c:48-81 | When the HTTP task touches the socket variable, the listener has returned 2 and the DHCP task has run closeApplication and resumed the HTTP task, and the DHCP task never touches the variable again. |
| Tasks.SocketIsOwn | DhcpApplicationServer/src/dhcpServer.c:10-10 | Although both tasks share one variable, neither listens, sends, receives or closes on the other one's socket, and the HTTP task only on one that is open; the DHCP task works on what its own call gave, which may have failed. |
| Tasks.HttpRunsIff | DhcpApplicationServer/src/main.c:72-81 | After suspending itself the HTTP task can take a step exactly when that suspension came before the resumption. |
| Tasks.ResumeIsOnce | DhcpApplicationServer/src/main.c:53-58 | The HTTP task is resumed at most once. |
| Tasks.EarlyResumeIsLost | freertos10_xilinx_bsp_0/psu_cortexa53_0/include/task.h:1014-1019 | After a resumption that came too early no continuation of the run lets the HTTP task touch the socket. |
| Tasks.EarlyResumeHappens | DhcpApplicationServer/src/main.c:48-81 | There is such a run, and after it no task can take a step. |
| Tasks.ClosedIff | DhcpApplicationServer/src/httpApplication.c:27-40 | Between two calls of socket by the HTTP task, the open socket of the first is closed exactly when connect succeeded. |
| Tasks.NoSocketLostIff | DhcpApplicationServer/src/httpApplication.c:220-238 | Every open socket is closed before the next call of socket exactly when no call but the last got a socket that would not connect. |
| Tasks.SocketLost | DhcpApplicationServer/src/httpApplication.c:232-236 | A run in which the second socket is opened while the first, which would not connect, still is. |
| LinkList.WithoutAt | DhcpApplicationServer/src/linkList.c:19-37 | What deletion leaves is the list without its first equal datum. |
| LinkList.WithoutIsRemoveFirst | DhcpApplicationServer/src/linkList.c:19-37 | Deleting from the nodes is deleting from the sequence of data. |
| LinkList.WithoutLast | DhcpApplicationServer/src/linkList.c:3-37 | Deleting an absent datum that was just added gives back the original nodes. |
| LinkList.NodeSetWithout | DhcpApplicationServer/src/linkList.c:24-31 | Deletion takes exactly the first matching node out of the set of nodes. |
| LinkList.List.AddNode | DhcpApplicationServer/src/linkList.c:3-17 | The same nodes in the same order and one fresh node behind them. |
| LinkList.List.Locate | DhcpApplicationServer/src/linkList.c:20-35 | The walk stops at the first node with the datum, with the node in front of it. |
| LinkList.List.DeleteNode | DhcpApplicationServer/src/linkList.c:19-37 | Exactly the first node with the datum leaves the list and is freed; without one nothing changes. |
| LinkList.List.RunAll | DhcpApplicationServer/src/linkList.c:3-37 | Over any sequence of operations the list stays a list and its data are those of the sequence model; its nodes are old ones or fresh, and besides them exactly the blocks allocated before are allocated: no deleted node leaks. |
| LinkList.List.AddThenDelete | DhcpApplicationServer/src/linkList.c:3-37 | Adding an absent datum and deleting it restores the list node by node and the set of allocated blocks. |

## Left out

- Failing allocations: every `malloc` succeeds. The paths for a failure are not modelled.
- Listener.ServeAccepted: is for manageable packets. Excluded are message types other than DISCOVER and REQUEST, for which `returnStatus` and `replyMsg.opts` are used without being initialised (`dhcpServer.c:76-78`), an empty message type option, whose value would be an uninitialised byte, options that run past the field, and requests whose reply overflows: in each the code reads what was never written or leaves its own memory.
- Listener.ServePacket: excludes the same packets.
- Listener.DhcpListener: excludes sequences that hold one.
- Listener.BalancedIff: excludes them too, as nothing is said about what such a packet leaves behind.
- `checkValidIpv4Addr` and the early `break` (`dhcpServer.c:86-89`): the shifts in it differ and the path returns no value.
- The four-byte comparison of the magic cookie, which the code does not make.
- PAD (section 3.1 of RFC 2132): the parser takes code 0 for an ordinary option, and so does the model.
- Sockets, lwIP, network initialisation and console output. A received packet is a value, a sent one a result; `recvfrom` is taken to fill the struct and to leave zeros behind the bytes received. The receive and send loops of the HTTP client are not modelled, and neither is `httpGet`, which differs from `httpPost` by the missing length and body.
- DhcpServer.CompleteReply: is one method for the tail that the two handlers share line by line.
- DhcpMessages.DhcpMsg.Clear: keeps the header of a message as a value that is updated field by field; only the options field, which the code reaches through a moving pointer, is an array.
- Http.HttpPost: excludes packets that do not fit the buffer of 1024 characters, for which the code writes behind it (`Http.PacketFitsIff` says which). The second `sprintf`, whose source and destination overlap, is taken as appending. The header fields are strings by value.
- Http.SplitResponse: takes the response as terminated, which the code does not ensure, and the intermediate strings as values; the buffers the code never frees are not tracked.
- Base64.Base64Encode: writes behind its buffer for the lengths `EncodeFits` names; these are excluded.
- Base64.Base64Decode: excludes the empty text, for which the size of the buffer wraps around.
- Base64.DecodeEncode: therefore excludes the empty string.
- Replacing.StrReplace: is given the memory behind the pointer that `malloc` returns, the block and what follows it, and excludes runs that would leave even that; the block alone is never enough (`Replacing.AllocatedTooSmall`).
- Integer widths of sizes and counters: lengths here are bounded by the buffers and never come near a wrap-around; header fields have their C widths.
- `trim_end`, `str_cat`, `str_dup`, `str_contains` and the `strnlen` bound of `str_ndup`: they would only add easy members.
- Insertion into and removal from scheduler lists: the bodies are not part of the repository, so the ring is assumed well-formed.
- Tasks.RunInv: abstracts each library call to one step; the initialisation task and the Ethernet input task do not touch the socket and are left out.
- The rest of the FreeRTOS and Xilinx headers: constants, prototypes and register access.
