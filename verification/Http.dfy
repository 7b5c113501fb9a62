/** `httpApplication.c`: building a POST packet and splitting a response. */
module Http {
  import opened Wrappers
  import opened CStrings
  import opened Replacing

  const CRLF := "\r\n"
  const HEADER_END := "\r\n\r\n"

  // ---------- where the header ends

  /** No line feed is followed by a carriage return: no line is empty. */
  predicate NoEmptyLine(t: string) {
    forall i :: 0 <= i && i + 1 < |t| && t[i] == '\n' ==> t[i + 1] != '\r'
  }

  predicate EndsLine(t: string) {
    |t| >= 2 && t[|t| - 2] == '\r' && t[|t| - 1] == '\n'
  }

  predicate OneLine(t: string) {
    '\r' !in t && '\n' !in t
  }

  /** What the rest of the header fields has to be for the packet to be framed properly. */
  predicate Framable(other: string) {
    && other != ""
    && Find(other, HEADER_END, 0) == -1
    && !OccursAt(other, CRLF, 0)
    && !EndsLine(other)
  }

  lemma HeaderEndAt(t: string, i: nat)
    ensures OccursAt(t, HEADER_END, i) <==>
            i + 4 <= |t| && t[i] == '\r' && t[i + 1] == '\n' && t[i + 2] == '\r' && t[i + 3] == '\n'
  {
    if i + 4 <= |t| {
      assert t[i..i + 4] == [t[i], t[i + 1], t[i + 2], t[i + 3]];
    }
  }

  lemma CrLfAt(t: string, i: nat)
    ensures OccursAt(t, CRLF, i) <==> i + 2 <= |t| && t[i] == '\r' && t[i + 1] == '\n'
  {
    if i + 2 <= |t| {
      assert t[i..i + 2] == [t[i], t[i + 1]];
    }
  }

  /** In front of properly framed fields nothing looks like the end of the header. */
  lemma NoEarlierEnd(front: string, other: string, body: string, i: nat)
    requires NoEmptyLine(front) && EndsLine(front) && Framable(other)
    requires i < |front| + |other|
    ensures !OccursAt(front + other + HEADER_END + body, HEADER_END, i)
  {
    var t := front + other + HEADER_END + body;
    HeaderEndAt(t, i);
    CrLfAt(other, 0);
    if i >= |front| {
      HeaderEndAt(other, i - |front|);
    }
  }

  /** Without them, something in front does. */
  lemma EarlierEnd(front: string, other: string, body: string) returns (i: nat)
    requires EndsLine(front) && !Framable(other)
    ensures i < |front| + |other|
    ensures OccursAt(front + other + HEADER_END + body, HEADER_END, i)
  {
    var t := front + other + HEADER_END + body;
    CrLfAt(other, 0);
    if other == "" || OccursAt(other, CRLF, 0) {
      i := |front| - 2;
    } else if EndsLine(other) {
      i := |front| + |other| - 2;
    } else {
      i := |front| + Find(other, HEADER_END, 0);
      HeaderEndAt(other, i - |front|);
    }
    HeaderEndAt(t, i);
  }

  /** The text behind the first end of header. */
  function BodyOf(packet: string): (body: string) {
    var p := Find(packet, HEADER_END, 0);
    if p == -1 then "" else packet[p + 4..]
  }

  /** A reader that takes the first empty line for the end of the header finds the body exactly
      when the other fields are properly framed. */
  lemma FramingIff(front: string, other: string, body: string)
    requires NoEmptyLine(front) && EndsLine(front)
    ensures BodyOf(front + other + HEADER_END + body) == body <==> Framable(other)
    ensures Framable(other) ==> Find(front + other + HEADER_END + body, HEADER_END, 0) == |front| + |other|
  {
    var t, k := front + other + HEADER_END + body, |front| + |other|;
    HeaderEndAt(t, k);
    if Framable(other) {
      forall i | 0 <= i < k ensures !OccursAt(t, HEADER_END, i) {
        NoEarlierEnd(front, other, body, i);
      }
      FindIs(t, HEADER_END, 0, k);
      assert t[k + 4..] == body;
    } else {
      var i := EarlierEnd(front, other, body);
    }
  }

  // ---------- building a packet

  /** The conversion `%d` of a length. */
  function Decimal(n: nat): (digits: string)
    ensures digits != "" && forall c :: c in digits ==> '0' <= c <= '9'
  {
    (if n < 10 then "" else Decimal(n / 10)) + [(n % 10 + '0' as int) as char]
  }

  /** What a reader makes of a string of digits. */
  function Number(digits: string): (n: int) {
    if digits == "" then 0
    else 10 * Number(digits[..|digits| - 1]) + (digits[|digits| - 1] as int - '0' as int)
  }

  lemma {:induction false} NumberDecimal(n: nat)
    ensures Number(Decimal(n)) == n
  {
    var digits := Decimal(n);
    if n >= 10 {
      NumberDecimal(n / 10);
      assert digits[..|digits| - 1] == Decimal(n / 10);
    }
  }

  /** `httpHeader`; None is a null pointer. */
  class HttpHeader {
    var httpPath: Option<string>
    var hostName: Option<string>
    var contentLength: int
    var connectionType: Option<string>
    var otherHeader: Option<string>

    constructor (httpPath: Option<string>, hostName: Option<string>, connectionType: Option<string>,
                 otherHeader: Option<string>)
      ensures this.httpPath == httpPath && this.hostName == hostName
      ensures this.connectionType == connectionType && this.otherHeader == otherHeader
    {
      this.httpPath, this.hostName := httpPath, hostName;
      this.connectionType, this.otherHeader := connectionType, otherHeader;
      this.contentLength := 0;
    }
  }

  function OrElse(field: Option<string>, default: string): string {
    if field.Some? then field.value else default
  }

  /** `checkHeader`: fills in what the caller left out; without a path there is no packet. */
  method CheckHeader(header: HttpHeader) returns (ok: bool)
    modifies header
    ensures ok <==> header.httpPath.Some?
    ensures header.httpPath == old(header.httpPath) && header.contentLength == old(header.contentLength)
    ensures ok ==>
              && header.hostName == (if old(header.hostName) == None then Some("") else old(header.hostName))
              && header.connectionType
                 == (if old(header.connectionType) == None then Some("keep-alive") else old(header.connectionType))
              && header.otherHeader == (if old(header.otherHeader) == None then Some("") else old(header.otherHeader))
  {
    if header.httpPath == None {
      return false;
    }
    if header.hostName == None {
      header.hostName := Some("");
    }
    if header.connectionType == None {
      header.connectionType := Some("keep-alive");
    }
    if header.otherHeader == None {
      header.otherHeader := Some("");
    }
    ok := true;
  }

  /** The format string of `httpPost` up to its fifth conversion. */
  function PostFront(path: string, host: string, connection: string, length: nat): (front: string) {
    "POST /" + path + " HTTP/1.1\r\nHost:" + host + "\r\nConnection:" + connection
    + "\r\nContent-Length:" + Decimal(length) + "\r\n"
  }

  function PostPacket(path: string, host: string, connection: string, other: string, body: string): (packet: string) {
    PostFront(path, host, connection, |body|) + other + HEADER_END + body
  }

  /** The packet for a header, with what `checkHeader` fills in. */
  function PacketFor(path: string, host: Option<string>, connection: Option<string>, other: Option<string>,
                     body: string): (packet: string) {
    PostPacket(path, OrElse(host, ""), OrElse(connection, "keep-alive"), OrElse(other, ""), body)
  }

  lemma PacketLength(path: string, host: string, connection: string, digits: string, other: string, body: string)
    ensures |"POST /" + path + " HTTP/1.1\r\nHost:" + host + "\r\nConnection:" + connection
             + "\r\nContent-Length:" + digits + "\r\n" + other + HEADER_END + body|
            == 58 + |path| + |host| + |connection| + |digits| + |other| + |body|
  {
  }

  /** The packets that fit the buffer of 1024 characters, terminator included. */
  lemma PacketFitsIff(path: string, host: string, connection: string, other: string, body: string)
    ensures |PostPacket(path, host, connection, other, body)| < 1024
            <==> |path| + |host| + |connection| + |other| + |body| + |Decimal(|body|)| < 966
  {
    PacketLength(path, host, connection, Decimal(|body|), other, body);
  }

  predicate CString(field: Option<string>) {
    field.Some? ==> NUL !in field.value
  }

  lemma DigitsAreText(n: nat)
    ensures NUL !in Decimal(n)
  {
  }

  /** The format string with all its conversions. */
  lemma FormatIsText(path: string, host: string, connection: string, other: string, length: nat)
    requires NUL !in path && NUL !in host && NUL !in connection && NUL !in other
    ensures NUL !in PostFront(path, host, connection, length) + other + HEADER_END
  {
    DigitsAreText(length);
  }

  /** The two calls of `sprintf`. */
  method PrintPacket(buffer: array<char>, path: string, host: string, connection: string, contentLength: nat,
                     other: string, body: string)
    requires contentLength == |body| && NUL !in body
    requires NUL !in path && NUL !in host && NUL !in connection && NUL !in other
    requires |PostPacket(path, host, connection, other, body)| < buffer.Length
    modifies buffer
    ensures Text(buffer, PostPacket(path, host, connection, other, body), NUL)
  {
    var text := "POST /" + path + " HTTP/1.1\r\nHost:" + host + "\r\nConnection:" + connection
                + "\r\nContent-Length:" + Decimal(contentLength) + "\r\n"
                + other + "\r\n\r\n";
    FormatIsText(path, host, connection, other, |body|);
    UpToAll(body, NUL);
    PrintInto(buffer, text, NUL);
    StrNCat(buffer, body, NUL, text);
  }

  /** `httpPost`. The buffer has 1024 characters; the caller has to know that the packet fits. The
      second `sprintf`, whose source and destination overlap, is taken as appending the body. */
  method HttpPost(header: HttpHeader, body: string) returns (packet: array?<char>)
    requires CString(header.httpPath) && CString(header.hostName) && CString(header.connectionType)
    requires CString(header.otherHeader) && NUL !in body
    requires header.httpPath.Some? ==>
               |PacketFor(header.httpPath.value, header.hostName, header.connectionType,
                          header.otherHeader, body)| < 1024
    modifies header
    ensures packet == null <==> old(header.httpPath) == None
    ensures packet != null ==>
              var text := old(PacketFor(header.httpPath.value, header.hostName, header.connectionType,
                                        header.otherHeader, body));
              && header.contentLength == |body|
              && fresh(packet) && packet.Length == |text| + 1 && Text(packet, text, NUL)
  {
    var buffer := new char[1024];
    var ok := CheckHeader(header);
    if !ok {
      return null;
    }
    header.contentLength := |body|;
    ghost var text := PostPacket(header.httpPath.value, header.hostName.value, header.connectionType.value,
                                 header.otherHeader.value, body);
    PrintPacket(buffer, header.httpPath.value, header.hostName.value, header.connectionType.value,
                header.contentLength, header.otherHeader.value, body);
    packet := ShrinkToFit(buffer, NUL, text);
  }

  lemma AddLine(front: string, line: string)
    requires NoEmptyLine(front) && (front == "" || EndsLine(front))
    requires line != "" && OneLine(line)
    ensures NoEmptyLine(front + line + CRLF) && EndsLine(front + line + CRLF)
  {
    assert forall k :: 0 <= k < |line| ==> line[k] in line;
  }

  lemma BreakInside(before: string, left: string, right: string, after: string)
    ensures before + (left + CRLF + right) + after == (before + left) + CRLF + (right + after)
  {
  }

  /** The four lines of the front, with `%d` already converted. */
  lemma FrontFormat(path: string, host: string, connection: string, digits: string)
    ensures "POST /" + path + " HTTP/1.1\r\nHost:" + host + "\r\nConnection:" + connection
            + "\r\nContent-Length:" + digits + "\r\n"
            == ("POST /" + path + " HTTP/1.1") + CRLF + ("Host:" + host) + CRLF
               + ("Connection:" + connection) + CRLF + ("Content-Length:" + digits) + CRLF
  {
    assert " HTTP/1.1\r\nHost:" == " HTTP/1.1" + CRLF + "Host:";
    assert "\r\nConnection:" == "" + CRLF + "Connection:";
    assert "\r\nContent-Length:" == "" + CRLF + "Content-Length:";
    hide *;
    var l1 := ("POST /" + path + " HTTP/1.1") + CRLF + ("Host:" + host);
    var l2 := l1 + CRLF + ("Connection:" + connection);
    BreakInside("POST /" + path, " HTTP/1.1", "Host:", host);
    BreakInside(l1, "", "Connection:", connection);
    BreakInside(l2, "", "Content-Length:", digits);
    assert l1 + "" == l1 && l2 + "" == l2;
  }

  lemma LinesAreLines(path: string, host: string, connection: string, digits: string)
    requires OneLine(path) && OneLine(host) && OneLine(connection) && OneLine(digits)
    ensures OneLine("POST /" + path + " HTTP/1.1") && OneLine("Host:" + host)
    ensures OneLine("Connection:" + connection) && OneLine("Content-Length:" + digits)
  {
  }

  lemma NothingYet()
    ensures NoEmptyLine("")
  {
  }

  /** With fields of one line each, the front of a packet is a sequence of non-empty lines. */
  lemma FrontIsLines(path: string, host: string, connection: string, length: nat)
    requires OneLine(path) && OneLine(host) && OneLine(connection)
    ensures NoEmptyLine(PostFront(path, host, connection, length))
    ensures EndsLine(PostFront(path, host, connection, length))
  {
    var digits := Decimal(length);
    LinesAreLines(path, host, connection, digits);
    FrontFormat(path, host, connection, digits);
    var f1 := "" + ("POST /" + path + " HTTP/1.1") + CRLF;
    var f2 := f1 + ("Host:" + host) + CRLF;
    var f3 := f2 + ("Connection:" + connection) + CRLF;
    NothingYet();
    AddLine("", "POST /" + path + " HTTP/1.1");
    AddLine(f1, "Host:" + host);
    AddLine(f2, "Connection:" + connection);
    AddLine(f3, "Content-Length:" + digits);
    assert "" + ("POST /" + path + " HTTP/1.1") == "POST /" + path + " HTTP/1.1";
  }

  // ---------- reading a packet

  /** The text in front of the first line break, and the text behind it. */
  function FirstLine(text: string): (line: string) {
    var e := Find(text, CRLF, 0);
    if e == -1 then text else text[..e]
  }

  function NextLines(text: string): (rest: string)
    ensures |rest| < |text| || rest == ""
  {
    var e := Find(text, CRLF, 0);
    if e == -1 then "" else text[e + 2..]
  }

  /** What a reader takes for the value of a header field: what stands behind its name on the first
      line that starts with the name. */
  function FieldOf(text: string, name: string): (value: Option<string>)
    decreases |text|
  {
    if text == "" then None
    else if name <= FirstLine(text) then Some(FirstLine(text)[|name|..])
    else FieldOf(NextLines(text), name)
  }

  lemma LineInFront(line: string)
    requires OneLine(line)
    ensures Find(line, CRLF, 0) == -1 && Find(line + CRLF, CRLF, 0) == |line|
  {
    assert forall k :: 0 <= k < |line| ==> line[k] in line;
    forall i | 0 <= i <= |line|
      ensures !OccursAt(line, CRLF, i) && (OccursAt(line + CRLF, CRLF, i) <==> i == |line|)
    {
      CrLfAt(line, i);
      CrLfAt(line + CRLF, i);
    }
    FindIs(line + CRLF, CRLF, 0, |line|);
  }

  lemma ReadLine(line: string, rest: string)
    requires OneLine(line)
    ensures FirstLine(line + CRLF + rest) == line && NextLines(line + CRLF + rest) == rest
  {
    var t, k := line + CRLF + rest, |line|;
    LineInFront(line);
    FirstInWindow(t, CRLF, 0, k);
    assert t[0..k + 2] == line + CRLF;
  }

  lemma ReadField(line: string, rest: string, name: string)
    requires OneLine(line)
    ensures FieldOf(line + CRLF + rest, name)
            == if name <= line then Some(line[|name|..]) else FieldOf(rest, name)
  {
    ReadLine(line, rest);
  }

  lemma Named(name: string, value: string)
    ensures name <= name + value && (name + value)[|name|..] == value
  {
  }

  lemma OtherName(name: string, line: string, i: nat)
    requires i < |name| && i < |line| && name[i] != line[i]
    ensures !(name <= line)
  {
  }

  lemma OtherNames(path: string, host: string, connection: string)
    ensures !("Host:" <= "POST /" + path + " HTTP/1.1") && !("Connection:" <= "POST /" + path + " HTTP/1.1")
    ensures !("Content-Length:" <= "POST /" + path + " HTTP/1.1")
    ensures !("Connection:" <= "Host:" + host) && !("Content-Length:" <= "Host:" + host)
    ensures !("Content-Length:" <= "Connection:" + connection)
  {
    OtherName("Host:", "POST /" + path + " HTTP/1.1", 0);
    OtherName("Connection:", "POST /" + path + " HTTP/1.1", 0);
    OtherName("Content-Length:", "POST /" + path + " HTTP/1.1", 0);
    OtherName("Connection:", "Host:" + host, 0);
    OtherName("Content-Length:", "Host:" + host, 0);
    OtherName("Content-Length:", "Connection:" + connection, 3);
  }

  lemma Regroup(a: string, b: string, c: string, d: string, rest: string)
    ensures a + CRLF + b + CRLF + c + CRLF + d + CRLF + rest
            == a + CRLF + (b + CRLF + (c + CRLF + (d + CRLF + rest)))
  {
  }

  lemma Together(a: string, b: string, c: string, d: string)
    ensures a + b + c + d == a + (b + c + d)
  {
  }

  lemma FrontIs(path: string, host: string, connection: string, length: nat)
    ensures PostFront(path, host, connection, length)
            == ("POST /" + path + " HTTP/1.1") + CRLF + ("Host:" + host) + CRLF
               + ("Connection:" + connection) + CRLF + ("Content-Length:" + Decimal(length)) + CRLF
  {
    FrontFormat(path, host, connection, Decimal(length));
  }

  lemma PacketIsFront(path: string, host: string, connection: string, other: string, body: string)
    ensures PostPacket(path, host, connection, other, body)
            == PostFront(path, host, connection, |body|) + other + HEADER_END + body
  {
  }

  /** A packet is four lines and what follows them. */
  lemma PacketLines(path: string, host: string, connection: string, other: string, body: string)
    ensures PostPacket(path, host, connection, other, body)
            == ("POST /" + path + " HTTP/1.1") + CRLF + (("Host:" + host) + CRLF
               + (("Connection:" + connection) + CRLF + (("Content-Length:" + Decimal(|body|)) + CRLF
               + (other + HEADER_END + body))))
  {
    hide *;
    var front := PostFront(path, host, connection, |body|);
    FrontIs(path, host, connection, |body|);
    PacketIsFront(path, host, connection, other, body);
    Together(front, other, HEADER_END, body);
    Regroup("POST /" + path + " HTTP/1.1", "Host:" + host, "Connection:" + connection,
            "Content-Length:" + Decimal(|body|), other + HEADER_END + body);
  }

  lemma DigitsAreOneLine(n: nat)
    ensures OneLine(Decimal(n))
  {
  }

  lemma HeaderEndText()
    ensures HEADER_END == "\r\n\r\n"
  {
  }

  /** A reader finds every field of a POST packet: the request line, host, connection and length of
      the body, and behind these four lines the other fields, the empty line and the body. */
  lemma PostFields(path: string, host: string, connection: string, other: string, body: string)
    requires OneLine(path) && OneLine(host) && OneLine(connection)
    ensures var packet := PostPacket(path, host, connection, other, body);
            && FirstLine(packet) == "POST /" + path + " HTTP/1.1"
            && FieldOf(packet, "Host:") == Some(host)
            && FieldOf(packet, "Connection:") == Some(connection)
            && FieldOf(packet, "Content-Length:").Some?
            && Number(FieldOf(packet, "Content-Length:").value) == |body|
            && NextLines(NextLines(NextLines(NextLines(packet)))) == other + "\r\n\r\n" + body
  {
    HeaderEndText();
    hide *;
    var digits := Decimal(|body|);
    DigitsAreOneLine(|body|);
    LinesAreLines(path, host, connection, digits);
    PacketLines(path, host, connection, other, body);
    OtherNames(path, host, connection);
    NumberDecimal(|body|);
    var l1, l2 := "POST /" + path + " HTTP/1.1", "Host:" + host;
    var l3, l4 := "Connection:" + connection, "Content-Length:" + digits;
    var r4 := other + HEADER_END + body;
    var r3 := l4 + CRLF + r4;
    var r2 := l3 + CRLF + r3;
    var r1 := l2 + CRLF + r2;
    ReadLine(l1, r1);
    ReadLine(l2, r2);
    ReadLine(l3, r3);
    ReadLine(l4, r4);
    Named("Host:", host);
    Named("Connection:", connection);
    Named("Content-Length:", digits);
    ReadField(l1, r1, "Host:");
    ReadField(l2, r2, "Host:");
    ReadField(l1, r1, "Connection:");
    ReadField(l2, r2, "Connection:");
    ReadField(l3, r3, "Connection:");
    ReadField(l1, r1, "Content-Length:");
    ReadField(l2, r2, "Content-Length:");
    ReadField(l3, r3, "Content-Length:");
    ReadField(l4, r4, "Content-Length:");
  }

  /** The framing of a POST packet: its body starts behind the first empty line, and has the length
      the header announces, exactly when the other header fields are properly framed. */
  lemma PostFraming(path: string, host: string, connection: string, other: string, body: string)
    requires OneLine(path) && OneLine(host) && OneLine(connection)
    ensures var packet := PostPacket(path, host, connection, other, body);
            && (BodyOf(packet) == body <==> Framable(other))
            && FieldOf(packet, "Content-Length:").Some?
            && (|BodyOf(packet)| == Number(FieldOf(packet, "Content-Length:").value) <==> Framable(other))
            && (Framable(other) ==>
                  Find(packet, HEADER_END, 0) == |PostFront(path, host, connection, |body|)| + |other|)
  {
    FrontIsLines(path, host, connection, |body|);
    FramingIff(PostFront(path, host, connection, |body|), other, body);
    PacketIsFront(path, host, connection, other, body);
    hide *;
    PostFields(path, host, connection, other, body);
  }

  /** Leaving the other fields empty, as the comment at `httpHeader` recommends, is not proper: the
      body then starts with the rest of an empty line. */
  lemma EmptyFieldsShiftBody(path: string, host: string, connection: string, body: string)
    requires OneLine(path) && OneLine(host) && OneLine(connection)
    ensures BodyOf(PostPacket(path, host, connection, "", body)) == CRLF + body
  {
    var front := PostFront(path, host, connection, |body|);
    FrontIsLines(path, host, connection, |body|);
    var t, k := PostPacket(path, host, connection, "", body), |front| - 2;
    assert t == front + HEADER_END + body;
    forall i | 0 <= i <= k ensures OccursAt(t, HEADER_END, i) <==> i == k {
      HeaderEndAt(t, i);
    }
    FindIs(t, HEADER_END, 0, k);
    assert t[k + 4..] == CRLF + body;
  }

  // ---------- splitting a response

  /** `httpResponse`. */
  class HttpResponse {
    var statusCode: string
    var other: array<char>
    var body: array<char>

    constructor (statusCode: string, other: array<char>, body: array<char>)
      ensures this.statusCode == statusCode && this.other == other && this.body == body
    {
      this.statusCode, this.other, this.body := statusCode, other, body;
    }
  }

  predicate Splittable(response: string) {
    Find(response, HEADER_END, 0) != -1
  }

  /** The status line ends where or before the header does, so both searches for the end of the
      header, from the start and from the end of the status line, find the same place. */
  lemma SearchesAgree(response: string)
    requires Splittable(response)
    ensures var o, e := Find(response, CRLF, 0), Find(response, HEADER_END, 0);
            && 0 <= o <= e
            && Find(response[o..], HEADER_END, 0) == e - o
  {
    var o, e := Find(response, CRLF, 0), Find(response, HEADER_END, 0);
    HeaderEndAt(response, e);
    CrLfAt(response, e);
    FindIs(response, HEADER_END, o, e);
    FindInSuffix(response, HEADER_END, o);
  }

  function StatusLine(response: string): (status: string)
    requires Splittable(response)
  {
    SearchesAgree(response);
    response[..Find(response, CRLF, 0)]
  }

  function RawHeaders(response: string): (headers: string)
    requires Splittable(response)
  {
    SearchesAgree(response);
    var rest := response[|StatusLine(response)|..];
    rest[..Find(rest, HEADER_END, 0)]
  }

  /** The response from the end of its header on. */
  function Tail(response: string): (tail: string)
    requires Splittable(response)
  {
    response[Find(response, HEADER_END, 0)..]
  }

  function RawBody(response: string): (body: string)
    requires Splittable(response)
  {
    response[Find(response, HEADER_END, 0) + 4..]
  }

  lemma ThreeCuts(t: string, o: nat, e: nat)
    requires o <= e && e + 4 <= |t|
    ensures t[..o] + t[o..e] + t[e..e + 4] + t[e + 4..] == t && t[o..][..e - o] == t[o..e]
  {
  }

  /** In front of the first line break there is none. */
  lemma NoneInFront(t: string)
    requires Find(t, CRLF, 0) != -1
    ensures Find(t[..Find(t, CRLF, 0)], CRLF, 0) == -1
  {
    var o := Find(t, CRLF, 0);
    forall i | 0 <= i ensures !OccursAt(t[..o], CRLF, i) {
      CrLfAt(t[..o], i);
      CrLfAt(t, i);
    }
  }

  /** The split loses nothing but the separator. */
  lemma SplitConserves(response: string)
    requires Splittable(response)
    ensures StatusLine(response) + RawHeaders(response) + HEADER_END + RawBody(response) == response
    ensures Find(StatusLine(response), CRLF, 0) == -1
  {
    SearchesAgree(response);
    ThreeCuts(response, Find(response, CRLF, 0), Find(response, HEADER_END, 0));
    NoneInFront(response);
  }

  /** What is stored for the headers and for the body, in memory that held `garbage`. */
  function StoredHeaders(garbage: string, response: string): (headers: string)
    requires Splittable(response)
  {
    ReplacedOver(garbage, RawHeaders(response), CRLF, "")
  }

  function StoredBody(garbage: string, response: string): (body: string)
    requires Splittable(response)
  {
    ReplacedOver(garbage, Tail(response), HEADER_END, "")
  }

  /** Removing separators from a text that starts with one removes that one first, and whether
      memory matters is decided by the rest. */
  lemma RemoveFront(rest: string)
    ensures Replaced(HEADER_END + rest, HEADER_END, "") == Replaced(rest, HEADER_END, "")
    ensures Find(rest, HEADER_END, 0) == -1 ==> InFront(HEADER_END + rest, HEADER_END, 0)
  {
    var h := HEADER_END + rest;
    assert OccursAt(h, HEADER_END, 0);
    SplitStep(h, HEADER_END, 0, 0);
    var pieces := Split(rest, HEADER_END, 0);
    SplitIff(rest, HEADER_END, pieces);
    assert h[4..] == rest;
    SplitUnique(h, HEADER_END, 4, pieces);
    JoinCons("", pieces, "");
    assert h[0..0] == "";
    NoneInRest(h, HEADER_END, 4);
  }

  lemma TailIs(response: string)
    requires Splittable(response)
    ensures Tail(response) == HEADER_END + RawBody(response) && HEADER_END != ""
  {
  }

  lemma StoredBodyIs(garbage: string, response: string)
    requires Splittable(response)
    ensures StoredBody(garbage, response) == ReplacedOver(garbage, Tail(response), HEADER_END, "")
  {
  }

  /** The stored body is the raw body, whatever memory held, exactly when that holds no further
      separator. */
  lemma StoredBodyIff(response: string)
    requires Splittable(response)
    ensures (forall g: string :: |g| > |RawBody(response)| ==> StoredBody(g, response) == RawBody(response))
            <==> Find(RawBody(response), HEADER_END, 0) == -1
  {
    hide *;
    var tail, body := Tail(response), RawBody(response);
    TailIs(response);
    RemoveFront(body);
    ReplacedNothing(body, HEADER_END, "");
    if Find(body, HEADER_END, 0) == -1 {
      AnyGarbageIff(tail, HEADER_END, "");
      forall g: string | |g| > |body| ensures StoredBody(g, response) == body {
        StoredBodyIs(g, response);
      }
    } else {
      var size := |body| + |Replaced(tail, HEADER_END, "")| + 1;
      ClearedIsRight(tail, HEADER_END, "", size);
      StoredBodyIs(seq(size, i => NUL), response);
    }
  }

  /** The raw headers are empty or start with a line break, and no second one stands right behind. */
  lemma HeadersStart(response: string)
    requires Splittable(response)
    ensures var h := RawHeaders(response); h == "" || (OccursAt(h, CRLF, 0) && !OccursAt(h, CRLF, 2))
  {
    SearchesAgree(response);
    var h, o, e := RawHeaders(response), Find(response, CRLF, 0), Find(response, HEADER_END, 0);
    HeaderEndAt(response, e);
    ThreeCuts(response, o, e);
    assert h == response[o..e];
    CrLfAt(response, o);
    CrLfAt(h, 0);
    CrLfAt(h, 2);
    HeaderEndAt(response, o);
  }

  /** The headers are stored as they should be, whatever memory held, exactly when there is at most
      one header field: no line break behind the one the raw headers start with. */
  lemma StoredHeadersIff(response: string)
    requires Splittable(response)
    ensures var h := RawHeaders(response);
            (forall g: string :: |g| > |Replaced(h, CRLF, "")| ==> StoredHeaders(g, response) == Replaced(h, CRLF, ""))
            <==> Find(h, CRLF, 2) == -1
  {
    var h := RawHeaders(response);
    HeadersStart(response);
    AnyGarbageIff(h, CRLF, "");
    assert InFront(h, CRLF, 0) <==> Find(h, CRLF, 2) == -1 by {
      if h != "" {
        FindIs(h, CRLF, 0, 0);
      }
    }
  }

  lemma IsSplitOne(piece: string, n: string)
    requires Find(piece, n, 0) == -1
    ensures IsSplit([piece], n) && forall glue :: Join([piece], glue) == piece
  {
  }

  lemma IsSplitCons(piece: string, rest: seq<string>, n: string)
    requires rest != [] && IsSplit(rest, n) && Find(piece + n, n, 0) == |piece|
    ensures IsSplit([piece] + rest, n)
  {
    assert ([piece] + rest)[1..] == rest;
  }

  lemma EmptyLine()
    ensures OneLine("") && CRLF != ""
  {
  }

  /** Two header fields behind the status line are split at their line breaks. */
  lemma FieldPieces(first: string, second: string)
    requires OneLine(first) && OneLine(second)
    ensures CRLF != "" && Split(CRLF + first + CRLF + second, CRLF, 0) == ["", first, second]
    ensures Join(["", first, second], "") == first + second
    ensures Join(["", first], "") == first
  {
    EmptyLine();
    hide *;
    var two, three := [first] + [second], [""] + ([first] + [second]);
    assert two == [first, second] && three == ["", first, second];
    LineInFront("");
    LineInFront(first);
    LineInFront(second);
    IsSplitOne(second, CRLF);
    IsSplitCons(first, [second], CRLF);
    IsSplitCons("", two, CRLF);
    JoinCons(first, [second], CRLF);
    JoinCons("", two, CRLF);
    assert "" + CRLF + (first + CRLF + second) == CRLF + first + CRLF + second;
    SplitIff(CRLF + first + CRLF + second, CRLF, three);
    JoinCons(first, [second], "");
    JoinCons("", two, "");
    JoinCons("", [first], "");
    JoinIs([first], "");
    assert [""] + [first] == ["", first];
    assert "" + "" + (first + "" + second) == first + second && "" + "" + first == first;
  }

  /** From the second header field on what is stored depends on memory: the line break behind the
      first field is replaced by nothing only if a terminator happens to stand there. */
  lemma SecondFieldDepends(garbage: string, first: string, second: string)
    requires OneLine(first) && OneLine(second) && first != "" && |garbage| > |first + second|
    ensures Replaced(CRLF + first + CRLF + second, CRLF, "") == first + second
    ensures ReplacedOver(garbage, CRLF + first + CRLF + second, CRLF, "") == first + second
            <==> garbage[|first|] == NUL
  {
    var h, pieces := CRLF + first + CRLF + second, ["", first, second];
    FieldPieces(first, second);
    ReplacedIff(garbage, h, CRLF, "");
    assert pieces[..2] == ["", first];
    assert Terminated(garbage, pieces, "", NUL, 0) <==> garbage[|first|] == NUL by {
      assert pieces[1] == first && pieces[0] == "";
    }
  }

  predicate PairedAt(h: string, i: nat)
    requires i < |h|
  {
    && (h[i] == '\r' ==> i + 1 < |h| && h[i + 1] == '\n')
    && (h[i] == '\n' ==> i > 0 && h[i - 1] == '\r')
  }

  /** Every carriage return is part of a line break, and so is every line feed. */
  predicate Paired(h: string) {
    forall i :: 0 <= i < |h| ==> PairedAt(h, i)
  }

  predicate AllLines(pieces: seq<string>) {
    forall i :: 0 <= i < |pieces| ==> OneLine(pieces[i])
  }

  lemma NoLines()
    ensures AllLines([]) && |CRLF| == 2
  {
  }

  lemma AllLinesCons(piece: string, rest: seq<string>)
    ensures AllLines([piece] + rest) <==> OneLine(piece) && AllLines(rest)
  {
    var pieces := [piece] + rest;
    if AllLines(pieces) {
      assert pieces[0] == piece;
      assert forall i :: 0 <= i < |rest| ==> rest[i] == pieces[i + 1];
    }
  }

  lemma {:induction false} JoinOneLine(pieces: seq<string>)
    requires pieces != []
    ensures OneLine(Join(pieces, "")) <==> AllLines(pieces)
  {
    if |pieces| > 1 {
      JoinOneLine(pieces[1..]);
      AllLinesCons(pieces[0], pieces[1..]);
      assert pieces == [pieces[0]] + pieces[1..];
      assert Join(pieces, "") == pieces[0] + Join(pieces[1..], "");
    }
  }

  lemma LineIsPaired(line: string)
    ensures OneLine(line) ==> Paired(line)
  {
    assert forall i :: 0 <= i < |line| ==> line[i] in line;
  }

  lemma PairedGlue(line: string, rest: string)
    requires OneLine(line) && Paired(rest)
    ensures Paired(line + CRLF + rest)
  {
    var h, k := line + CRLF + rest, |line| + 2;
    forall i | 0 <= i < |h|
      ensures PairedAt(h, i)
    {
      if i < |line| {
        assert h[i] == line[i] && line[i] in line;
      } else if i >= k {
        assert PairedAt(rest, i - k) && h[i] == rest[i - k];
        assert i > k ==> h[i - 1] == rest[i - k - 1];
        assert i + 1 < |h| ==> h[i + 1] == rest[i - k + 1];
      }
    }
  }

  lemma PairedCut(line: string, rest: string)
    requires Paired(line + CRLF + rest)
    ensures Paired(rest)
  {
    var h, k := line + CRLF + rest, |line| + 2;
    forall i | 0 <= i < |rest|
      ensures PairedAt(rest, i)
    {
      assert PairedAt(h, k + i) && h[k + i] == rest[i] && h[k - 1] == '\n';
      assert i > 0 ==> h[k + i - 1] == rest[i - 1];
      assert i + 1 < |rest| ==> h[k + i + 1] == rest[i + 1];
    }
  }

  /** A piece of a paired text in front of its first line break is a line. */
  lemma PairedPiece(h: string, from: nat)
    requires from <= |h| && Paired(h[from..])
    ensures var p := Find(h, CRLF, from);
            OneLine(h[from..if p == -1 then |h| else p])
  {
    var t, p := h[from..], Find(h, CRLF, from);
    forall i | from <= i < if p == -1 then |h| else p ensures h[i] != '\r' && h[i] != '\n' {
      CrLfAt(h, i);
      assert PairedAt(t, i - from) && t[i - from] == h[i];
      if i > from {
        CrLfAt(h, i - 1);
        assert t[i - from - 1] == h[i - 1];
      }
    }
  }

  lemma CutAtBreak(h: string, from: nat, p: nat)
    requires from <= p && OccursAt(h, CRLF, p)
    ensures p + 2 <= |h| && h[from..] == h[from..p] + CRLF + h[p + 2..]
  {
    assert h[p..p + 2] == CRLF;
  }

  lemma FindOccurs(h: string, from: nat)
    ensures var p := Find(h, CRLF, from);
            p != -1 ==> from <= p && p + 2 <= |h| && OccursAt(h, CRLF, p)
  {
  }

  /** A text is paired if it is a line up to its first line break and paired behind that. */
  lemma PairedRest(h: string, from: nat, p: nat)
    requires from <= p == Find(h, CRLF, from) && p + 2 <= |h|
    ensures Paired(h[from..]) <==> OneLine(h[from..p]) && Paired(h[p + 2..])
  {
    hide *;
    FindOccurs(h, from);
    CutAtBreak(h, from, p);
    if Paired(h[from..]) {
      PairedPiece(h, from);
      PairedCut(h[from..p], h[p + 2..]);
    } else if OneLine(h[from..p]) && Paired(h[p + 2..]) {
      PairedGlue(h[from..p], h[p + 2..]);
    }
  }

  lemma PairedEnd(h: string, from: nat)
    requires from <= |h| && Find(h, CRLF, from) == -1
    ensures Paired(h[from..]) <==> OneLine(h[from..])
  {
    hide *;
    assert h[from..|h|] == h[from..];
    LineIsPaired(h[from..]);
    if Paired(h[from..]) {
      PairedPiece(h, from);
    }
  }

  lemma {:induction false} PairedPieces(h: string, from: nat)
    requires from <= |h|
    ensures CRLF != "" && (Paired(h[from..]) <==> AllLines(Split(h, CRLF, from)))
    decreases |h| - from
  {
    EmptyLine();
    hide *;
    NoLines();
    FindOccurs(h, from);
    var p := Find(h, CRLF, from);
    if p == -1 {
      SplitNone(h, CRLF, from);
      AllLinesCons(h[from..], []);
      assert [h[from..]] + [] == [h[from..]];
      PairedEnd(h, from);
    } else {
      PairedPieces(h, p + 2);
      AllLinesCons(h[from..p], Split(h, CRLF, p + 2));
      SplitStep(h, CRLF, from, p);
      PairedRest(h, from, p);
    }
  }

  /** Taking out line breaks leaves one line exactly when there was nothing else made of these two
      characters: what is left over can come together as a new line break. */
  lemma BreaksGoneIff(headers: string)
    ensures OneLine(Replaced(headers, CRLF, "")) <==> Paired(headers)
  {
    assert headers[0..] == headers;
    PairedPieces(headers, 0);
    JoinOneLine(Split(headers, CRLF, 0));
  }

  lemma BreakLeft()
    ensures Replaced("\r\r\n\n", CRLF, "") == CRLF
  {
    var pieces := ["\r", "\n"];
    assert pieces[1..] == ["\n"];
    assert "\r" + CRLF == "\r\r\n" && "\r" + CRLF + "\n" == "\r\r\n\n";
    CrLfAt("\r\r\n", 0);
    CrLfAt("\r\r\n", 1);
    FindIs("\r\r\n", CRLF, 0, 1);
    SplitIff("\r\r\n\n", CRLF, pieces);
  }

  /** `waitHttpResponse` from line 124 on. The response is taken to be terminated and to hold the
      end of its header; neither is checked. The two memories are those behind the pointers that
      `malloc` returns to `str_replace`. */
  method SplitResponse(response: string, other: array<char>, body: array<char>) returns (hresp: HttpResponse)
    requires Splittable(response) && NUL !in response && other != body
    requires |StoredHeaders(other[..], response)| < other.Length
    requires |StoredBody(body[..], response)| < body.Length
    modifies other, body
    ensures hresp.statusCode == StatusLine(response) && hresp.other == other && hresp.body == body
    ensures Text(other, StoredHeaders(old(other[..]), response), NUL)
    ensures Text(body, StoredBody(old(body[..]), response), NUL)
  {
    SearchesAgree(response);
    var statusLine := GetUntil(response, CRLF);
    var offSet := |statusLine|;
    assert statusLine == StatusLine(response);
    var rawHeaders := GetUntil(response[offSet..], HEADER_END);
    assert rawHeaders == RawHeaders(response);
    var c := StrReplace(CRLF, "", rawHeaders, other);
    var tail := response[Find(response, HEADER_END, 0)..];
    c := StrReplace(HEADER_END, "", tail, body);
    hresp := new HttpResponse(statusLine, other, body);
  }
}
