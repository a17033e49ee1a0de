/**
 Packets over byte streams: the length-prefixed TCP sender and the WebSocket sender, whose sockets take any part
 of what they are given. The WebSocket header is the one of section 5.2 of RFC 6455.
 */
module StreamSenders {
  import opened Wrappers
  import opened Bytes

  datatype Framing = LengthPrefix | WebSocket

  const MAX_TCP_SIZE := 65536

  type Packet = p: seq<Byte> | 0 < |p| <= MAX_TCP_SIZE witness [0]

  function Header(f: Framing, n: uint32): seq<Byte> {
    match f
    case LengthPrefix => BE32(n)
    case WebSocket =>
      if n <= 125 then [0x82, n as Byte]
      else if n <= 65535 then [0x82, 126] + BigEndian(n, 2)
      else [0x82, 127] + BE64(n)
  }

  function Framed(f: Framing, p: Packet): seq<Byte>
  {
    Header(f, |p|) + p
  }

  function Wire(f: Framing, ps: seq<Packet>): seq<Byte>
  {
    if ps == [] then [] else Wire(f, ps[..|ps| - 1]) + Framed(f, ps[|ps| - 1])
  }

  // ---- what a receiver does

  datatype Announced = Announced(size: nat, headerSize: nat)

  // The payload length at the start of a stream, as soon as all of its header has arrived.
  function ReadHeader(f: Framing, s: seq<Byte>): (r: Option<Announced>)
    ensures r.Some? ==> 0 < r.value.headerSize <= |s|
  {
    match f
    case LengthPrefix => if |s| < 4 then None else Some(Announced(ToUInt32(s, 0), 4))
    case WebSocket =>
      if |s| < 2 || s[0] != 0x82 || s[1] >= 128 then None
      else if s[1] < 126 then Some(Announced(s[1] as nat, 2))
      else if s[1] == 126 then
        if |s| < 4 then None else Some(Announced(s[2] as nat * 0x100 + s[3] as nat, 4))
      else if |s| < 10 then None else Some(Announced(ToUInt64(s, 2), 10))
  }

  datatype Unframing = Unframing(packets: seq<seq<Byte>>, rest: seq<Byte>)

  // Cuts a stream into the packets that are complete and what is left over.
  function Unframe(f: Framing, s: seq<Byte>): Unframing
    decreases |s|
  {
    match ReadHeader(f, s)
    case None => Unframing([], s)
    case Some(a) =>
      var end := a.headerSize + a.size;
      if |s| < end then Unframing([], s)
      else
        var u := Unframe(f, s[end..]);
        Unframing([s[a.headerSize..end]] + u.packets, u.rest)
  }

  lemma BigEndianPair(n: nat)
    requires n < 0x1_0000
    ensures BigEndian(n, 2) == [(n / 0x100) as Byte, (n % 0x100) as Byte]
  {
    assert BigEndian(n, 2) == BigEndian(n / 0x100, 1) + [(n % 0x100) as Byte];
    assert BigEndian(n / 0x100, 1) == [] + [(n / 0x100 % 0x100) as Byte];
  }

  /** A header is read back, however much of the stream follows it. */
  lemma HeaderReadBack(f: Framing, n: uint32, rest: seq<Byte>)
    ensures ReadHeader(f, Header(f, n) + rest) == Some(Announced(n, |Header(f, n)|))
  {
    var h, s := Header(f, n), Header(f, n) + rest;
    match f
    case LengthPrefix =>
      assert s[0..4] == h;
      ReadBE32(s, 0, n);
    case WebSocket =>
      if 126 <= n <= 65535 {
        BigEndianPair(n);
        assert h == [0x82, 126, (n / 0x100) as Byte, (n % 0x100) as Byte];
      } else if n > 65535 {
        assert s[2..10] == BE64(n);
        ReadBE64(s, 2, n);
      }
  }

  /** No header that says the same length is shorter: the minimal form that the standard asks for. */
  lemma WebSocketShortest(n: uint32, other: seq<Byte>)
    requires ReadHeader(WebSocket, other) == Some(Announced(n, |other|))
    ensures |Header(WebSocket, n)| <= |other|
  {
  }

  /** A frame that is cut short gives the receiver nothing. */
  lemma CutGivesNothing(f: Framing, p: Packet, m: nat)
    requires m < |Framed(f, p)|
    ensures Unframe(f, Framed(f, p)[..m]) == Unframing([], Framed(f, p)[..m])
  {
    var h, s := Header(f, |p|), Framed(f, p)[..m];
    if |h| <= m {
      assert s == h + p[..m - |h|];
      HeaderReadBack(f, |p|, p[..m - |h|]);
    } else if f == WebSocket && m >= 2 {
      assert s[1] == h[1];
    }
  }

  lemma {:induction false} WireFirst(f: Framing, ps: seq<Packet>)
    requires ps != []
    ensures Wire(f, ps) == Framed(f, ps[0]) + Wire(f, ps[1..])
    decreases |ps|
  {
    hide Framed;
    var n := |ps| - 1;
    if n == 0 {
      assert ps[..0] == [] && ps[1..] == [];
    } else {
      WireFirst(f, ps[..n]);
      assert ps[..n][1..] == ps[1..][..n - 1];
      var w := Wire(f, ps[1..][..n - 1]);
      assert Wire(f, ps) == (Framed(f, ps[0]) + w) + Framed(f, ps[n]);
      assert Wire(f, ps[1..]) == w + Framed(f, ps[n]);
    }
  }

  /** Whole frames followed by a tail that completes no frame are cut apart where they were put together. */
  lemma {:induction false} Unframes(f: Framing, ps: seq<Packet>, tail: seq<Byte>)
    requires Unframe(f, tail) == Unframing([], tail)
    ensures Unframe(f, Wire(f, ps) + tail) == Unframing(ps, tail)
    decreases |ps|
  {
    hide Unframe, Framed;
    if ps == [] {
      assert Wire(f, ps) + tail == tail;
    } else {
      WireFirst(f, ps);
      Assoc(Framed(f, ps[0]), Wire(f, ps[1..]), tail);
      UnframesFirst(f, ps[0], Wire(f, ps[1..]) + tail);
      Unframes(f, ps[1..], tail);
      assert ps == [ps[0]] + ps[1..];
    }
  }

  // The first frame of a stream.
  lemma UnframesFirst(f: Framing, p: Packet, later: seq<Byte>)
    ensures Unframe(f, Framed(f, p) + later) == var u := Unframe(f, later); Unframing([p] + u.packets, u.rest)
  {
    hide Header, ReadHeader;
    var h, s := Header(f, |p|), Framed(f, p) + later;
    assert s == h + (p + later);
    HeaderReadBack(f, |p|, p + later);
    assert s[|h|..|h| + |p|] == p && s[|h| + |p|..] == later;
  }

  /** A connected client: what has arrived at its end, and what the sender meant for it since it joined. */
  class Client {
    var stream: seq<Byte>
    var down: bool
    ghost const framing: Framing
    ghost var sent: seq<Packet>
    ghost var whole: nat
    ghost var cut: nat

    // Every packet arrived whole, or the socket is down and the stream ends inside one of them.
    ghost predicate Valid()
      reads this
    {
      && (if down then whole < |sent| && cut < |Framed(framing, sent[whole])| else whole == |sent|)
      && stream == Wire(framing, sent[..whole]) + if down then Framed(framing, sent[whole])[..cut] else []
    }

    constructor (ghost framing: Framing)
      ensures Valid() && stream == [] && sent == [] && !down && this.framing == framing
    {
      this.framing, stream, down, sent, whole, cut := framing, [], false, [], 0, 0;
    }

    // send(): takes any part of the data, or fails; after a shutdown it always fails.
    method Send(data: seq<Byte>) returns (bytes: int)
      requires data != []
      modifies this`stream
      ensures bytes <= |data|
      ensures bytes > 0 ==> !down
      ensures stream == old(stream) + if bytes > 0 then data[..bytes] else []
    {
      bytes := -1;
      if !down {
        bytes :| -1 <= bytes <= |data|;
      }
      if bytes > 0 {
        stream := stream + data[..bytes];
      }
    }

    // Sends until all is taken; on a failure some proper prefix has been.
    method SendAll(data: seq<Byte>) returns (ok: bool, ghost taken: nat)
      modifies this`stream
      ensures taken <= |data| && stream == old(stream) + data[..taken]
      ensures ok <==> taken == |data|
      ensures old(down) && data != [] ==> taken == 0
    {
      var sentBytes := 0;
      while sentBytes < |data|
        invariant 0 <= sentBytes <= |data|
        invariant stream == old(stream) + data[..sentBytes]
        invariant down && data != [] ==> sentBytes == 0
        decreases |data| - sentBytes
      {
        var bytes := Send(data[sentBytes..]);
        if bytes <= 0 {
          return false, sentBytes;
        }
        assert data[..sentBytes] + data[sentBytes..][..bytes] == data[..sentBytes + bytes];
        sentBytes := sentBytes + bytes;
      }
      return true, |data|;
    }

    method SendFrame(ghost p: Packet, frame: seq<Byte>)
      requires Valid() && frame == Framed(framing, p)
      modifies this
      ensures Valid() && sent == old(sent) + [p]
    {
      ghost var before, wasDown := stream, down;
      var ok, taken := SendAll(frame);
      if !ok {
        down := true;
      }
      Book(p, taken, before, wasDown);
    }

    method SendParts(header: seq<Byte>, p: Packet)
      requires Valid() && header + p == Framed(framing, p)
      modifies this
      ensures Valid() && sent == old(sent) + [p]
    {
      hide Framed, Wire;
      ghost var before, wasDown := stream, down;
      var ok, taken := SendAll(header);
      if ok {
        assert header == (header + p)[..|header|];
        ghost var more;
        ok, more := SendAll(p);
        assert header + p[..more] == (header + p)[..|header| + more];
        taken := |header| + more;
      } else {
        assert header[..taken] == (header + p)[..taken];
      }
      if !ok {
        down := true;
      }
      Book(p, taken, before, wasDown);
    }

    // Books the outcome: `taken` bytes of the frame of p arrived.
    ghost method Book(p: Packet, taken: nat, before: seq<Byte>, wasDown: bool)
      requires taken <= |Framed(framing, p)|
      requires wasDown ==> taken == 0
      requires stream == before + Framed(framing, p)[..taken]
      requires down <==> wasDown || taken < |Framed(framing, p)|
      requires if wasDown then whole < |sent| && cut < |Framed(framing, sent[whole])| else whole == |sent|
      requires before == Wire(framing, sent[..whole]) + if wasDown then Framed(framing, sent[whole])[..cut] else []
      modifies this`sent, this`whole, this`cut
      ensures Valid() && sent == old(sent) + [p]
    {
      hide Framed;
      sent := sent + [p];
      assert old(sent[..whole]) == if wasDown then old(sent)[..old(whole)] else old(sent);
      if !wasDown {
        assert sent[..whole] == old(sent);
        if down {
          cut := taken;
        } else {
          whole := whole + 1;
          assert sent[..whole] == sent && sent[..whole - 1] == old(sent);
          assert Framed(framing, p)[..taken] == Framed(framing, p);
        }
      } else {
        assert sent[..whole] == old(sent)[..whole];
      }
    }
  }

  /** The list of clients of a sender; clients come and go between packets. */
  class TcpSender {
    var clients: seq<Client>
    var connected: bool
    const bufferSize: nat := MAX_TCP_SIZE
    const dataBuffer: array<Byte>
    ghost const framing: Framing

    ghost predicate Valid()
      reads this, clients
    {
      && dataBuffer.Length == MAX_TCP_SIZE + 4
      && (forall i :: 0 <= i < |clients| ==> clients[i].Valid() && clients[i].framing == framing)
      && (forall i, j :: 0 <= i < j < |clients| ==> clients[i] != clients[j])
    }

    constructor (ghost framing: Framing)
      ensures Valid() && fresh(dataBuffer) && clients == [] && this.framing == framing
    {
      clients, connected, this.framing := [], false, framing;
      dataBuffer := new Byte[MAX_TCP_SIZE + 4];
    }

    method Join() returns (c: Client)
      requires Valid()
      modifies this`clients, this`connected
      ensures Valid() && fresh(c) && clients == old(clients) + [c] && c.sent == []
    {
      c := new Client(framing);
      clients := clients + [c];
      connected := true;
    }

    method Leave(k: nat)
      requires Valid() && k < |clients|
      modifies this`clients, this`connected
      ensures Valid() && clients == old(clients[..k] + clients[k + 1..])
    {
      clients := clients[..k] + clients[k + 1..];
      connected := clients != [];
    }

    predicate Accepted(data: seq<Byte>)
      reads this
    {
      connected && 0 < |data| <= bufferSize
    }

    /** The plain sender: the length and the packet in one buffer, sent to one client after the other. */
    method SendOscPacket(data: seq<Byte>) returns (ok: bool)
      requires Valid() && framing == LengthPrefix
      modifies dataBuffer, clients
      ensures Valid() && ok == Accepted(data)
      ensures Sent(clients) == if ok then Given(old(Sent(clients)), |clients|, data) else old(Sent(clients))
    {
      if !connected {
        return false;
      }
      if |data| > bufferSize {
        return false;
      }
      if |data| == 0 {
        return false;
      }
      FillBuffer(data);
      Broadcast(data);
      return true;
    }

    method Broadcast(data: Packet)
      requires Valid() && 4 + |data| <= dataBuffer.Length && dataBuffer[..4 + |data|] == Framed(framing, data)
      modifies clients
      ensures Valid() && Sent(clients) == Given(old(Sent(clients)), |clients|, data)
    {
      hide Framed, Valid, Sent, Given;
      ghost var was := Sent(clients);
      NothingGiven(was, data);
      for i := 0 to |clients|
        invariant Valid() && dataBuffer[..4 + |data|] == Framed(framing, data)
        invariant Sent(clients) == Given(was, i, data)
      {
        SendTo(i, data, dataBuffer[..4 + |data|]);
        OneMoreGiven(was, i, data);
      }
    }

    method SendTo(i: nat, ghost p: Packet, frame: seq<Byte>)
      requires Valid() && i < |clients| && frame == Framed(framing, p)
      modifies clients[i]
      ensures Valid() && Sent(clients) == old(Sent(clients)[i := Sent(clients)[i] + [p]])
    {
      hide Client.Valid, Framed;
      clients[i].SendFrame(p, frame);
    }

    method SendPartsTo(i: nat, header: seq<Byte>, p: Packet)
      requires Valid() && i < |clients| && header == Header(framing, |p|)
      modifies clients[i]
      ensures Valid() && Sent(clients) == old(Sent(clients)[i := Sent(clients)[i] + [p]])
    {
      hide Client.Valid, Header;
      clients[i].SendParts(header, p);
    }

    // The big-endian length and the packet, copied into the sender's buffer.
    method FillBuffer(data: Packet)
      requires Valid() && framing == LengthPrefix
      modifies dataBuffer
      ensures dataBuffer[..4 + |data|] == Framed(framing, data)
    {
      var size := |data|;
      dataBuffer[0], dataBuffer[1] := (size / 0x100_0000 % 0x100) as Byte, (size / 0x1_0000 % 0x100) as Byte;
      dataBuffer[2], dataBuffer[3] := (size / 0x100 % 0x100) as Byte, (size % 0x100) as Byte;
      forall i | 0 <= i < size {
        dataBuffer[4 + i] := data[i];
      }
      PrefixBytes(size);
      assert dataBuffer[..4 + size] == Framed(framing, data);
    }

    /** The WebSocket sender: the header and the packet one after the other. */
    method SendWebSocketPacket(data: seq<Byte>) returns (ok: bool)
      requires Valid() && framing == WebSocket
      modifies clients
      ensures Valid() && ok == Accepted(data)
      ensures Sent(clients) == if ok then Given(old(Sent(clients)), |clients|, data) else old(Sent(clients))
    {
      if !connected {
        return false;
      }
      if |data| == 0 || |data| > bufferSize {
        return false;
      }
      var header, hs := WebSocketHeader(|data|);
      BroadcastParts(header[..hs], data);
      return true;
    }

    method BroadcastParts(header: seq<Byte>, data: Packet)
      requires Valid() && header == Header(framing, |data|)
      modifies clients
      ensures Valid() && Sent(clients) == Given(old(Sent(clients)), |clients|, data)
    {
      hide Header, Valid, Sent, Given;
      ghost var was := Sent(clients);
      NothingGiven(was, data);
      for i := 0 to |clients|
        invariant Valid()
        invariant Sent(clients) == Given(was, i, data)
      {
        SendPartsTo(i, header, data);
        OneMoreGiven(was, i, data);
      }
    }
  }

  // What was meant for each client.
  ghost function Sent(cs: seq<Client>): (r: seq<seq<Packet>>)
    reads cs
    ensures |r| == |cs|
  {
    seq(|cs|, i requires 0 <= i < |cs| reads cs => cs[i].sent)
  }

  // The first n get one packet more.
  function Given(was: seq<seq<Packet>>, n: nat, p: Packet): (r: seq<seq<Packet>>)
    ensures |r| == |was|
  {
    seq(|was|, i requires 0 <= i < |was| => if i < n then was[i] + [p] else was[i])
  }

  lemma NothingGiven(was: seq<seq<Packet>>, p: Packet)
    ensures Given(was, 0, p) == was
  {
  }

  lemma OneMoreGiven(was: seq<seq<Packet>>, i: nat, p: Packet)
    requires i < |was|
    ensures Given(was, i + 1, p) == Given(was, i, p)[i := Given(was, i, p)[i] + [p]]
  {
  }

  lemma PrefixBytes(n: uint32)
    ensures BE32(n) == [(n / 0x100_0000 % 0x100) as Byte, (n / 0x1_0000 % 0x100) as Byte,
                        (n / 0x100 % 0x100) as Byte, (n % 0x100) as Byte]
  {
    assert BigEndian(n, 4) == BigEndian(n / 0x100, 3) + [(n % 0x100) as Byte];
    assert BigEndian(n / 0x100, 3) == BigEndian(n / 0x1_0000, 2) + [(n / 0x100 % 0x100) as Byte];
    assert BigEndian(n / 0x1_0000, 2) == BigEndian(n / 0x100_0000, 1) + [(n / 0x1_0000 % 0x100) as Byte];
    assert BigEndian(n / 0x100_0000, 1) == [] + [(n / 0x100_0000 % 0x100) as Byte];
  }

  lemma MediumHeader(n: uint32)
    requires 125 < n <= 65535
    ensures Header(WebSocket, n) == [0x82, 126, (n / 0x100 % 0x100) as Byte, (n % 0x100) as Byte]
  {
    BigEndianPair(n);
  }

  lemma LongHeader(n: uint32)
    requires n > 65535
    ensures Header(WebSocket, n) ==
            [0x82, 127, 0, 0, 0, 0, (n / 0x100_0000 % 0x100) as Byte, (n / 0x1_0000 % 0x100) as Byte,
             (n / 0x100 % 0x100) as Byte, (n % 0x100) as Byte]
  {
    PrefixBytes(n);
    PrefixBytes(0);
    hide BE32;
    assert BE64(n) == BE32(0) + BE32(n);
  }

  /** The binary frames among the examples of section 5.7 of RFC 6455: 256 and 65536 octets. */
  lemma ExampleHeaders()
    ensures Header(WebSocket, 256) == [0x82, 0x7E, 0x01, 0x00]
    ensures Header(WebSocket, 65536) == [0x82, 0x7F, 0x00, 0x00, 0x00, 0x00, 0x00, 0x01, 0x00, 0x00]
    ensures Header(LengthPrefix, 65536) == [0x00, 0x01, 0x00, 0x00]
  {
    MediumHeader(256);
    LongHeader(65536);
    PrefixBytes(65536);
  }

  method WebSocketHeader(len: nat) returns (header: array<Byte>, hs: nat)
    requires len < 0x8000_0000
    ensures fresh(header) && hs <= header.Length
    ensures header[..hs] == Header(WebSocket, len)
  {
    header := new Byte[10];
    header[0] := 0x82;
    if len <= 125 {
      header[1] := len as Byte;
      hs := 2;
    } else if len <= 65535 {
      MediumHeader(len);
      hide Header;
      header[1] := 126;
      header[2] := (len / 0x100 % 0x100) as Byte;
      header[3] := (len % 0x100) as Byte;
      hs := 4;
    } else {
      LongHeader(len);
      hide Header;
      header[1] := 127;
      header[2], header[3], header[4], header[5] := 0, 0, 0, 0;
      header[6] := (len / 0x100_0000 % 0x100) as Byte;
      header[7] := (len / 0x1_0000 % 0x100) as Byte;
      header[8] := (len / 0x100 % 0x100) as Byte;
      header[9] := (len % 0x100) as Byte;
      hs := 10;
    }
  }

  /** Every valid client reads the packets that arrived whole, in order and from its first one on. */
  lemma ClientReads(c: Client)
    requires c.Valid()
    ensures var u := Unframe(c.framing, c.stream);
            && u.packets == c.sent[..c.whole]
            && (if c.down then c.whole < |c.sent| && u.rest == Framed(c.framing, c.sent[c.whole])[..c.cut]
                else u.packets == c.sent && u.rest == [])
  {
    hide Framed;
    if c.down {
      CutGivesNothing(c.framing, c.sent[c.whole], c.cut);
      Unframes(c.framing, c.sent[..c.whole], Framed(c.framing, c.sent[c.whole])[..c.cut]);
    } else {
      NothingLeft(c.framing);
      Unframes(c.framing, c.sent[..c.whole], []);
    }
  }

  lemma NothingLeft(f: Framing)
    ensures Unframe(f, []) == Unframing([], [])
  {
  }
}
