/** The byte stream between two peers: messages framed by 24-byte headers. */
module MessageStream {
  import opened Bytes

  const HEADER_SIZE := 24
  const COMMAND_SIZE := 12
  const MAX_SIZE := 0x0200_0000
  const MAX_PROTOCOL_MESSAGE_LENGTH := 32 * 1000 * 1000

  /** A message handed to PushMessage; the command is padded to its field. */
  datatype Message = Message(command: seq<Byte>, data: seq<Byte>)
  {
    ghost predicate WithinLimits() {
      |command| == COMMAND_SIZE && |data| <= MAX_PROTOCOL_MESSAGE_LENGTH
    }
  }

  /** What the two peers agree on: the network's magic bytes and the checksum. */
  datatype Network = Network(magic: seq<Byte>, checksum: seq<Byte> -> nat)
  {
    ghost predicate Valid() { |magic| == 4 }

    /** The 24 bytes before a payload: four of the network, twelve of the command, and four each
        for the payload's size and its checksum, the lowest first. */
    ghost predicate Layout(hdr: seq<Byte>, msg: Message) {
      && |hdr| == 24 && hdr[..4] == magic && hdr[4..16] == msg.command
      && LowestFirst(hdr[16..20], |msg.data|) && LowestFirst(hdr[20..], checksum(msg.data) % 0x1_0000_0000)
    }

    function Header(msg: Message): (hdr: seq<Byte>)
      requires |magic| == 4 && |msg.command| == COMMAND_SIZE
      ensures |hdr| == HEADER_SIZE
    {
      magic + msg.command + WriteLE32(|msg.data| % 0x1_0000_0000) + WriteLE32(checksum(msg.data) % 0x1_0000_0000)
    }
  }

  /** The four bytes of a number. */
  ghost predicate LowestFirst(b: seq<Byte>, n: nat) {
    && |b| == 4 && b[0] == n % 256 && b[1] == n / 256 % 256
    && b[2] == n / 65536 % 256 && b[3] == n / 16777216 % 256
  }

  lemma WrittenLowestFirst(n: nat)
    requires n < 0x1_0000_0000
    ensures LowestFirst(WriteLE32(n), n)
  {
  }

  /** The header of a message is laid out as the protocol wants it. */
  lemma HeaderLayout(net: Network, msg: Message)
    requires net.Valid() && msg.WithinLimits()
    ensures net.Layout(net.Header(msg), msg)
  {
    var hdr := net.Header(msg);
    WrittenLowestFirst(|msg.data|);
    WrittenLowestFirst(net.checksum(msg.data) % 0x1_0000_0000);
    hide LowestFirst, WriteLE32;
    assert hdr[..4] == net.magic && hdr[4..16] == msg.command;
    assert hdr[16..20] == WriteLE32(|msg.data|);
    assert hdr[20..] == WriteLE32(net.checksum(msg.data) % 0x1_0000_0000);
  }

  /** The payload size a header declares. */
  function SizeOf(hdr: seq<Byte>): nat
    requires |hdr| == HEADER_SIZE
  {
    ReadLE32(hdr[16..20])
  }

  lemma HeaderSize(net: Network, msg: Message)
    requires net.Valid() && msg.WithinLimits()
    ensures SizeOf(net.Header(msg)) == |msg.data|
  {
    ReadWriteLE32(|msg.data|);
    assert net.Header(msg)[16..20] == WriteLE32(|msg.data|);
  }

  ghost predicate AllWithinLimits(msgs: seq<Message>) {
    forall i | 0 <= i < |msgs| :: msgs[i].WithinLimits()
  }

  /** The bytes of a sequence of messages on the wire. */
  ghost function Wire(net: Network, msgs: seq<Message>): seq<Byte>
    requires net.Valid() && AllWithinLimits(msgs)
  {
    if msgs == [] then []
    else (net.Header(msgs[0]) + msgs[0].data) + Wire(net, msgs[1..])
  }

  lemma {:induction false} WireAppend(net: Network, msgs: seq<Message>, m: Message)
    requires net.Valid() && AllWithinLimits(msgs) && m.WithinLimits()
    ensures Wire(net, msgs + [m]) == Wire(net, msgs) + net.Header(m) + m.data
  {
    if msgs == [] {
      assert [m][1..] == [];
    } else {
      WireAppend(net, msgs[1..], m);
      assert (msgs + [m])[1..] == msgs[1..] + [m];
    }
  }

  lemma {:induction false} WireConcat(net: Network, a: seq<Message>, b: seq<Message>)
    requires net.Valid() && AllWithinLimits(a) && AllWithinLimits(b)
    ensures AllWithinLimits(a + b) && Wire(net, a + b) == Wire(net, a) + Wire(net, b)
  {
    if b == [] {
      assert a + b == a;
    } else {
      var n := |b| - 1;
      assert a + b == (a + b[..n]) + [b[n]] && b == b[..n] + [b[n]];
      WireConcat(net, a, b[..n]);
      WireAppend(net, a + b[..n], b[n]);
      WireAppend(net, b[..n], b[n]);
      hide Wire;
      Regroup(Wire(net, a), Wire(net, b[..n]), net.Header(b[n]), b[n].data);
      Regroup([], Wire(net, b[..n]), net.Header(b[n]), b[n].data);
    }
  }

  // ----------------------------------------------------------- received messages

  /** A message being received. */
  datatype NetMessage = NetMessage(inData: bool, hdrbuf: seq<Byte>, nHdrPos: nat, vRecv: seq<Byte>, nDataPos: nat)
  {
    ghost predicate Valid() {
      && |hdrbuf| == HEADER_SIZE && nHdrPos <= HEADER_SIZE
      && (inData <==> nHdrPos == HEADER_SIZE)
      && (inData ==> nDataPos <= |vRecv| <= SizeOf(hdrbuf) <= MAX_PROTOCOL_MESSAGE_LENGTH)
      && (!inData ==> nDataPos == 0 && vRecv == [])
    }

    predicate Complete()
      requires |hdrbuf| == HEADER_SIZE
    {
      inData && SizeOf(hdrbuf) == nDataPos
    }

    /** The bytes absorbed so far. */
    ghost function Raw(): seq<Byte>
      requires nHdrPos <= |hdrbuf| && nDataPos <= |vRecv|
    {
      hdrbuf[..nHdrPos] + vRecv[..nDataPos]
    }
  }

  function NewMessage(): NetMessage {
    NetMessage(false, seq(HEADER_SIZE, _ => 0), 0, [], 0)
  }

  /** All messages valid, and all but perhaps the last complete. */
  ghost predicate Queue(msgs: seq<NetMessage>) {
    AllValid(msgs) && forall i | 0 <= i < |msgs| - 1 :: msgs[i].Complete()
  }

  ghost predicate AllValid(msgs: seq<NetMessage>) {
    forall i | 0 <= i < |msgs| :: msgs[i].Valid()
  }

  /** All bytes absorbed by a queue of messages. */
  ghost function RawAll(msgs: seq<NetMessage>): seq<Byte>
    requires AllValid(msgs)
  {
    if msgs == [] then [] else
      var last := msgs[|msgs| - 1];
      assert last.Valid();
      RawAll(msgs[..|msgs| - 1]) + last.Raw()
  }

  lemma {:induction false} RawAllFront(msgs: seq<NetMessage>)
    requires msgs != [] && AllValid(msgs)
    ensures RawAll(msgs) == msgs[0].Raw() + RawAll(msgs[1..])
  {
    var n := |msgs| - 1;
    if n > 0 {
      RawAllFront(msgs[..n]);
      assert msgs[..n][1..] == msgs[1..][..n - 1] && msgs[1..][n - 1] == msgs[n];
      hide NetMessage.Raw, NetMessage.Valid;
      Joined(msgs[0].Raw(), RawAll(msgs[1..][..n - 1]), msgs[n].Raw());
    } else {
      assert msgs[..n] == [] && msgs[1..] == [];
    }
  }

  lemma Joined(a: seq<Byte>, b: seq<Byte>, c: seq<Byte>)
    ensures (a + b) + c == a + (b + c)
  {
  }

  /** What the receiver completed is what the sender sent, message by message. */
  ghost predicate SameMessages(net: Network, msgs: seq<NetMessage>, sent: seq<Message>)
    requires net.Valid() && AllWithinLimits(sent)
  {
    && |msgs| <= |sent|
    && forall i | 0 <= i < |msgs| :: Same(net, msgs[i], sent[i])
  }

  ghost predicate Same(net: Network, m: NetMessage, s: Message)
    requires net.Valid() && s.WithinLimits()
  {
    m.hdrbuf == net.Header(s) && m.vRecv == s.data
  }

  /** Each message carries the sent one's command and payload behind a header laid out for it. */
  ghost predicate Arrived(net: Network, msgs: seq<NetMessage>, sent: seq<Message>) {
    && |msgs| <= |sent|
    && forall i | 0 <= i < |msgs| :: net.Layout(msgs[i].hdrbuf, sent[i]) && msgs[i].vRecv == sent[i].data
  }

  lemma SameArrived(net: Network, msgs: seq<NetMessage>, sent: seq<Message>)
    requires net.Valid() && AllWithinLimits(sent) && SameMessages(net, msgs, sent)
    ensures Arrived(net, msgs, sent)
  {
    hide Network.Layout, Network.Header;
    forall i | 0 <= i < |msgs| ensures net.Layout(msgs[i].hdrbuf, sent[i]) && msgs[i].vRecv == sent[i].data {
      assert Same(net, msgs[i], sent[i]);
      HeaderLayout(net, sent[i]);
    }
  }

  lemma Regroup(a: seq<Byte>, b: seq<Byte>, c: seq<Byte>, d: seq<Byte>)
    ensures ((a + b) + c) + d == a + (b + (c + d))
  {
  }

  lemma CompleteRaw(m: NetMessage)
    requires m.Valid() && m.Complete()
    ensures m.Raw() == m.hdrbuf + m.vRecv
  {
    assert m.hdrbuf[..24] == m.hdrbuf && m.vRecv[..|m.vRecv|] == m.vRecv;
  }

  /** Framing is unambiguous: complete messages read off a prefix of the wire are a
      prefix of the messages put on it. */
  lemma {:induction false} PrefixParses(net: Network, msgs: seq<NetMessage>, rest: seq<Byte>, sent: seq<Message>)
    requires net.Valid() && AllWithinLimits(sent)
    requires AllValid(msgs) && forall i | 0 <= i < |msgs| :: msgs[i].Complete()
    requires RawAll(msgs) + rest <= Wire(net, sent)
    ensures SameMessages(net, msgs, sent)
    ensures rest <= Wire(net, sent[|msgs|..])
    decreases |msgs|
  {
    if msgs == [] {
      assert sent[0..] == sent && RawAll(msgs) + rest == rest;
    } else {
      hide Wire, SizeOf, RawAll, Same;
      FirstParses(net, msgs, rest, sent);
      hide SameMessages;
      PrefixParses(net, msgs[1..], rest, sent[1..]);
      SameFront(net, msgs, sent);
    }
  }

  lemma FirstParses(net: Network, msgs: seq<NetMessage>, rest: seq<Byte>, sent: seq<Message>)
    requires net.Valid() && AllWithinLimits(sent)
    requires AllValid(msgs) && msgs != [] && msgs[0].Complete()
    requires RawAll(msgs) + rest <= Wire(net, sent)
    ensures sent != [] && Same(net, msgs[0], sent[0])
    ensures RawAll(msgs[1..]) + rest <= Wire(net, sent[1..])
  {
    hide Wire, SizeOf, RawAll, Same;
    RawAllFront(msgs);
    var m, raw := msgs[0], RawAll(msgs[1..]);
    CompleteRaw(m);
    Regroup(m.hdrbuf, m.vRecv, raw, rest);
    FirstMessage(net, m, raw + rest, sent);
  }

  lemma SameFront(net: Network, msgs: seq<NetMessage>, sent: seq<Message>)
    requires net.Valid() && AllWithinLimits(sent) && msgs != [] && sent != []
    requires Same(net, msgs[0], sent[0]) && SameMessages(net, msgs[1..], sent[1..])
    ensures SameMessages(net, msgs, sent) && sent[1..][|msgs| - 1..] == sent[|msgs|..]
  {
    forall i | 0 <= i < |msgs| ensures Same(net, msgs[i], sent[i]) {
      if i > 0 {
        assert Same(net, msgs[1..][i - 1], sent[1..][i - 1]);
      }
    }
  }

  /** Of two texts with first parts of one length, one continuing the other. */
  lemma SplitPrefix(a: seq<Byte>, rest: seq<Byte>, b: seq<Byte>, more: seq<Byte>)
    requires |a| == |b| && a + rest <= b + more
    ensures a == b && rest <= more
  {
    var n := |a|;
    assert a == (a + rest)[..n] == (b + more)[..n] == b;
    assert rest == (a + rest)[n..] && more == (b + more)[n..];
  }

  lemma FirstMessage(net: Network, m: NetMessage, tail: seq<Byte>, sent: seq<Message>)
    requires net.Valid() && AllWithinLimits(sent) && m.Valid() && m.Complete()
    requires m.hdrbuf + (m.vRecv + tail) <= Wire(net, sent)
    ensures sent != [] && Same(net, m, sent[0])
    ensures tail <= Wire(net, sent[1..])
  {
    var s, more := sent[0], Wire(net, sent[1..]);
    assert Wire(net, sent) == net.Header(s) + (s.data + more);
    HeaderSize(net, s);
    hide Wire;
    SplitPrefix(m.hdrbuf, m.vRecv + tail, net.Header(s), s.data + more);
    SplitPrefix(m.vRecv, tail, s.data, more);
  }

  /** The bytes of complete messages are those of the messages they equal. */
  lemma {:induction false} SameRaw(net: Network, msgs: seq<NetMessage>, sent: seq<Message>)
    requires net.Valid() && AllWithinLimits(sent) && AllValid(msgs) && SameMessages(net, msgs, sent)
    requires forall i | 0 <= i < |msgs| :: msgs[i].Complete()
    ensures RawAll(msgs) == Wire(net, sent[..|msgs|])
  {
    if msgs != [] {
      var n := |msgs| - 1;
      assert Same(net, msgs[n], sent[n]) && sent[..n + 1] == sent[..n] + [sent[n]];
      SameRaw(net, msgs[..n], sent);
      WireAppend(net, sent[..n], sent[n]);
      CompleteRaw(msgs[n]);
      hide Wire, NetMessage.Raw;
      Joined(Wire(net, sent[..n]), net.Header(sent[n]), sent[n].data);
    }
  }

  /** A message that is not complete has not got all the bytes of the one it will be. */
  lemma ShortOf(net: Network, m: NetMessage, s: Message, more: seq<Byte>)
    requires net.Valid() && s.WithinLimits() && m.Valid() && !m.Complete()
    requires m.Raw() <= net.Header(s) + (s.data + more)
    ensures |m.Raw()| < HEADER_SIZE + |s.data|
  {
    HeaderSize(net, s);
    if m.inData {
      assert m.hdrbuf[..HEADER_SIZE] == m.hdrbuf;
      hide SizeOf;
      SplitPrefix(m.hdrbuf, m.vRecv[..m.nDataPos], net.Header(s), s.data + more);
    }
  }
}
