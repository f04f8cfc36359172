/** The two ends of a connection: the send queue with its partial writes, and the
    incremental receiver. */
module Peers {
  import opened Bytes
  import opened MessageStream

  function Min(a: int, b: int): int { if a < b then a else b }

  // ---------------------------------------------------------------- receiving

  /** Absorbs header bytes; a negative result rejects the message. */
  method ReadHeader(msg: NetMessage, pch: seq<Byte>) returns (handled: int, after: NetMessage)
    requires msg.Valid() && !msg.inData && pch != []
    ensures 0 <= handled ==>
              && 0 < handled <= |pch| && (handled == |pch| || after.nHdrPos == HEADER_SIZE)
              && |after.hdrbuf| == HEADER_SIZE && after.nHdrPos <= HEADER_SIZE
              && (after.inData ==> SizeOf(after.hdrbuf) <= MAX_SIZE)
              && after.nDataPos == 0 && after.vRecv == []
              && after.hdrbuf[..after.nHdrPos] == msg.hdrbuf[..msg.nHdrPos] + pch[..handled]
              && (after.inData <==> after.nHdrPos == HEADER_SIZE)
    ensures handled < 0 ==>
              && after.nDataPos == 0 && after.vRecv == []
              && |after.hdrbuf| == after.nHdrPos == HEADER_SIZE && SizeOf(after.hdrbuf) > MAX_SIZE
              && |pch| >= HEADER_SIZE - msg.nHdrPos
              && after.hdrbuf == msg.hdrbuf[..msg.nHdrPos] + pch[..HEADER_SIZE - msg.nHdrPos]
  {
    var nRemaining := HEADER_SIZE - msg.nHdrPos;
    var nCopy := Min(nRemaining, |pch|);
    var pos := msg.nHdrPos + nCopy;
    after := msg.(hdrbuf := msg.hdrbuf[..msg.nHdrPos] + pch[..nCopy] + msg.hdrbuf[pos..], nHdrPos := pos);
    if pos < HEADER_SIZE {
      return nCopy, after;
    }
    assert after.hdrbuf == msg.hdrbuf[..msg.nHdrPos] + pch[..nCopy];
    if SizeOf(after.hdrbuf) > MAX_SIZE {
      return -1, after;
    }
    after := after.(inData := true);
    return nCopy, after;
  }

  /** A buffer grown to `n` bytes, the new ones zero. */
  function Resize(b: seq<Byte>, n: nat): (r: seq<Byte>)
    requires |b| <= n
    ensures |r| == n && r[..|b|] == b
  {
    b + seq(n - |b|, _ => 0)
  }

  /** Absorbs payload bytes, growing the buffer ahead of them by at most 256 KiB. */
  method ReadData(msg: NetMessage, pch: seq<Byte>) returns (handled: nat, after: NetMessage)
    requires msg.Valid() && msg.inData && !msg.Complete() && pch != []
    ensures 0 < handled <= |pch|
    ensures after.Valid() && after.inData && after.Raw() == msg.Raw() + pch[..handled]
    ensures handled == |pch| || after.Complete()
    ensures after.hdrbuf == msg.hdrbuf
    ensures |after.vRecv| == if after.nDataPos <= |msg.vRecv| then |msg.vRecv|
                             else Min(SizeOf(msg.hdrbuf), after.nDataPos + 262144)
  {
    hide SizeOf;
    var nMessageSize := SizeOf(msg.hdrbuf);
    var nRemaining := nMessageSize - msg.nDataPos;
    var nCopy := Min(nRemaining, |pch|);
    var vRecv := msg.vRecv;
    if |vRecv| < msg.nDataPos + nCopy {
      vRecv := Resize(vRecv, Min(nMessageSize, msg.nDataPos + nCopy + 256 * 1024));
    }
    vRecv := vRecv[..msg.nDataPos] + pch[..nCopy] + vRecv[msg.nDataPos + nCopy..];
    after := msg.(vRecv := vRecv, nDataPos := msg.nDataPos + nCopy);
    handled := nCopy;
    assert after.vRecv[..after.nDataPos] == msg.vRecv[..msg.nDataPos] + pch[..nCopy];
  }

  /** How many messages of a queue are complete. */
  ghost function Done(msgs: seq<NetMessage>): nat
    requires AllValid(msgs)
  {
    if msgs == [] then 0 else if msgs[|msgs| - 1].Complete() then |msgs| else |msgs| - 1
  }

  /** The last message declares more than the protocol allows. */
  ghost predicate Oversized(msgs: seq<NetMessage>) {
    && msgs != []
    && var m := msgs[|msgs| - 1];
    |m.hdrbuf| == m.nHdrPos == HEADER_SIZE && SizeOf(m.hdrbuf) > MAX_PROTOCOL_MESSAGE_LENGTH
  }

  /** The receiver gave up: `bytes` end with that header, after complete messages. */
  ghost predicate StoppedAt(msgs: seq<NetMessage>, bytes: seq<Byte>) {
    && Oversized(msgs)
    && var front := msgs[..|msgs| - 1];
    && AllValid(front) && (forall i | 0 <= i < |front| :: front[i].Complete())
    && RawAll(front) + msgs[|front|].hdrbuf == bytes
  }

  lemma NextChunk(before: seq<Byte>, chunk: seq<Byte>, eaten: nat, handled: nat)
    requires eaten + handled <= |chunk|
    ensures (before + chunk[..eaten]) + chunk[eaten..][..handled] == before + chunk[..eaten + handled]
    ensures chunk[eaten..][handled..] == chunk[eaten + handled..]
  {
  }

  class Receiver {
    var vRecvMsg: seq<NetMessage>

    ghost predicate Valid()
      reads this
    {
      Queue(vRecvMsg)
    }

    constructor ()
      ensures Valid() && vRecvMsg == []
    {
      vRecvMsg := [];
    }

    /** Absorbs a chunk of the stream, however it was cut. It fails only at a header
        that declares too much, which is then the last thing absorbed. */
    method ReceiveMsgBytes(chunk: seq<Byte>) returns (ok: bool, complete: bool, ghost eaten: nat)
      requires Valid()
      modifies this
      ensures eaten <= |chunk| && (ok ==> eaten == |chunk|)
      ensures ok ==> Valid() && RawAll(vRecvMsg) == RawAll(old(vRecvMsg)) + chunk
      ensures ok ==> (complete <==> Done(vRecvMsg) > Done(old(vRecvMsg)))
      ensures !ok ==> StoppedAt(vRecvMsg, RawAll(old(vRecvMsg)) + chunk[..eaten])
      ensures !ok ==> (complete <==> |vRecvMsg| - 1 > Done(old(vRecvMsg)))
    {
      complete := false;
      var pch := chunk;
      eaten := 0;
      while pch != []
        invariant eaten <= |chunk| && pch == chunk[eaten..]
        invariant Valid() && RawAll(vRecvMsg) == RawAll(old(vRecvMsg)) + chunk[..eaten]
        invariant Done(vRecvMsg) >= Done(old(vRecvMsg)) && (complete <==> Done(vRecvMsg) > Done(old(vRecvMsg)))
        decreases |pch|
      {
        hide *;
        var handled, done;
        ok, done, handled := Absorb(pch);
        NextChunk(RawAll(old(vRecvMsg)), chunk, eaten, handled);
        eaten := eaten + handled;
        if !ok {
          return;
        }
        pch := pch[handled..];
        if done {
          complete := true;
        }
      }
      assert chunk[..eaten] == chunk;
      ok := true;
    }

    /** One turn of the loop: the current message, or a new one, absorbs some bytes. */
    method Absorb(pch: seq<Byte>) returns (ok: bool, done: bool, handled: nat)
      requires Valid() && pch != []
      modifies this
      ensures 0 <= handled <= |pch| && (ok ==> 0 < handled)
      ensures ok ==> Valid() && RawAll(vRecvMsg) == RawAll(old(vRecvMsg)) + pch[..handled]
      ensures ok ==> Done(vRecvMsg) == Done(old(vRecvMsg)) + (if done then 1 else 0)
      ensures !ok ==> StoppedAt(vRecvMsg, RawAll(old(vRecvMsg)) + pch[..handled]) && !done
      ensures !ok ==> |vRecvMsg| - 1 == Done(old(vRecvMsg))
    {
      hide SizeOf, RawAll, Done, Queue, AllValid, NetMessage.Raw;
      var msg;
      ghost var front;
      msg, front := OpenMessage();
      var before := msg;
      var n;
      if !msg.inData {
        n, msg := ReadHeader(msg, pch);
      } else {
        n, msg := ReadData(msg, pch);
      }
      vRecvMsg := vRecvMsg[|vRecvMsg| - 1 := msg];
      handled := if n < 0 then HEADER_SIZE - before.nHdrPos else n;
      Absorbed(front, before, msg, pch[..handled]);
      assert vRecvMsg == front + [msg] && vRecvMsg[..|front|] == front;
      if n < 0 {
        return false, false, handled;
      }
      if msg.inData && SizeOf(msg.hdrbuf) > MAX_PROTOCOL_MESSAGE_LENGTH {
        return false, false, handled;
      }
      QueueLast(front, msg);
      return true, msg.Complete(), handled;
    }

    /** The message being received, created if there is none. */
    method OpenMessage() returns (msg: NetMessage, ghost front: seq<NetMessage>)
      requires Valid()
      modifies this
      ensures vRecvMsg == front + [msg]
      ensures AllValid(front) && (forall i | 0 <= i < |front| :: front[i].Complete())
      ensures msg.Valid() && !msg.Complete()
      ensures RawAll(front) + msg.Raw() == RawAll(old(vRecvMsg)) && Done(old(vRecvMsg)) == |front|
    {
      front := CompletePart(vRecvMsg);
      Unfinished(vRecvMsg);
      hide SizeOf, RawAll, Done;
      if vRecvMsg == [] || vRecvMsg[|vRecvMsg| - 1].Complete() {
        vRecvMsg := vRecvMsg + [NewMessage()];
      }
      msg := vRecvMsg[|vRecvMsg| - 1];
    }
  }

  /** The bytes of a queue after its open message has absorbed some more. */
  lemma Absorbed(front: seq<NetMessage>, before: NetMessage, after: NetMessage, bytes: seq<Byte>)
    requires AllValid(front) && before.Valid() && after.nHdrPos <= |after.hdrbuf| && after.nDataPos <= |after.vRecv|
    ensures after.Raw() == before.Raw() + bytes ==>
              RawAll(front) + after.Raw() == (RawAll(front) + before.Raw()) + bytes
    ensures var more := before.hdrbuf[..before.nHdrPos] + bytes;
            !before.inData && after.nDataPos == 0 && after.hdrbuf[..after.nHdrPos] == more ==>
              after.Raw() == before.Raw() + bytes
    ensures after.nHdrPos == |after.hdrbuf| && after.nDataPos == 0 ==> after.Raw() == after.hdrbuf
  {
    hide RawAll;
    assert after.nDataPos == 0 ==> after.Raw() == after.hdrbuf[..after.nHdrPos];
    assert before.nDataPos == 0 ==> before.Raw() == before.hdrbuf[..before.nHdrPos];
    var raw := RawAll(front);
    assert (raw + before.Raw()) + bytes == raw + (before.Raw() + bytes);
  }

  /** The complete messages of a queue. */
  ghost function CompletePart(msgs: seq<NetMessage>): seq<NetMessage>
    requires AllValid(msgs)
  {
    if msgs == [] || msgs[|msgs| - 1].Complete() then msgs else msgs[..|msgs| - 1]
  }

  /** A queue is its complete messages and the one being received, which may be new. */
  lemma Unfinished(msgs: seq<NetMessage>)
    requires Queue(msgs)
    ensures var front := CompletePart(msgs);
            var m := if front == msgs then NewMessage() else msgs[|msgs| - 1];
            && AllValid(front) && (forall i | 0 <= i < |front| :: front[i].Complete())
            && m.Valid() && !m.Complete() && (front != msgs ==> msgs == front + [m])
            && RawAll(msgs) == RawAll(front) + m.Raw() && Done(msgs) == |front|
  {
    hide SizeOf;
    var front := CompletePart(msgs);
    if front == msgs {
      assert NewMessage().Raw() == [];
      assert RawAll(msgs) + [] == RawAll(msgs);
    }
  }

  lemma QueueLast(front: seq<NetMessage>, m: NetMessage)
    requires AllValid(front) && m.Valid() && forall i | 0 <= i < |front| :: front[i].Complete()
    ensures Queue(front + [m]) && RawAll(front + [m]) == RawAll(front) + m.Raw()
    ensures Done(front + [m]) == |front| + (if m.Complete() then 1 else 0)
  {
    hide SizeOf, NetMessage.Valid, NetMessage.Complete;
    var msgs := front + [m];
    assert msgs[..|front|] == front;
    assert forall i | 0 <= i < |msgs| :: msgs[i].Valid();
  }

  // ------------------------------------------------------------------ sending

  ghost function TotalSize(bufs: seq<seq<Byte>>): nat {
    if bufs == [] then 0 else |bufs[0]| + TotalSize(bufs[1..])
  }

  ghost function Concat(bufs: seq<seq<Byte>>): seq<Byte> {
    if bufs == [] then [] else bufs[0] + Concat(bufs[1..])
  }

  lemma {:induction false} ConcatAppend(bufs: seq<seq<Byte>>, b: seq<Byte>)
    ensures Concat(bufs + [b]) == Concat(bufs) + b && TotalSize(bufs + [b]) == TotalSize(bufs) + |b|
  {
    if bufs == [] {
      assert [b][1..] == [] && b + [] == b;
    } else {
      ConcatAppend(bufs[1..], b);
      assert (bufs + [b])[1..] == bufs[1..] + [b];
    }
  }

  ghost predicate NoneEmpty(bufs: seq<seq<Byte>>) {
    forall i | 0 <= i < |bufs| :: bufs[i] != []
  }

  /** What is still to be sent. */
  ghost function Pending(bufs: seq<seq<Byte>>, offset: nat): seq<Byte>
    requires bufs == [] ==> offset == 0
    requires bufs != [] ==> offset <= |bufs[0]|
  {
    if bufs == [] then [] else bufs[0][offset..] + Concat(bufs[1..])
  }

  /** Part of the first buffer may have been sent, never all of it, and what was
      sent and what is pending together make up the wire. */
  ghost predicate Underway(bufs: seq<seq<Byte>>, offset: nat, sent: seq<Byte>, wire: seq<Byte>) {
    && (bufs == [] ==> offset == 0)
    && (bufs != [] ==> offset < |bufs[0]|)
    && sent + Pending(bufs, offset) == wire
  }

  /** How many bytes a socket takes off a queue, given what it is ready to take at each call:
      it is called again only while it takes whole buffers. */
  ghost function Taken(bufs: seq<seq<Byte>>, offset: nat, socketValid: bool, outcomes: seq<int>): nat
    requires bufs != [] ==> offset <= |bufs[0]|
  {
    if bufs == [] || outcomes == [] || !socketValid || outcomes[0] <= 0 then 0
    else if outcomes[0] < |bufs[0]| - offset then outcomes[0]
    else |bufs[0]| - offset + Taken(bufs[1..], 0, socketValid, outcomes[1..])
  }

  /** A socket that takes whatever it is given empties the queue. */
  lemma {:induction false} TakesAll(bufs: seq<seq<Byte>>, offset: nat, outcomes: seq<int>)
    requires (bufs == [] ==> offset == 0) && (bufs != [] ==> offset <= |bufs[0]|)
    requires NoneEmpty(bufs) && |outcomes| >= |bufs|
    requires forall i | 0 <= i < |bufs| :: outcomes[i] >= |bufs[i]|
    ensures Taken(bufs, offset, true, outcomes) == TotalSize(bufs) - offset
    decreases |bufs|
  {
    if bufs != [] {
      TakesAll(bufs[1..], 0, outcomes[1..]);
    }
  }

  lemma TakenStep(bufs: seq<seq<Byte>>, offset: nat, socketValid: bool, outcomes: seq<int>, k: nat)
    requires k < |bufs| && k <= |outcomes| && offset < |bufs[k]|
    ensures var t := Taken(bufs[k..], offset, socketValid, outcomes[k..]);
            if !socketValid || k == |outcomes| || outcomes[k] <= 0 then t == 0
            else if outcomes[k] < |bufs[k]| - offset then t == outcomes[k]
            else t == |bufs[k]| - offset + Taken(bufs[k + 1..], 0, socketValid, outcomes[k + 1..])
  {
    assert bufs[k..][1..] == bufs[k + 1..];
    if k < |outcomes| {
      assert outcomes[k..][1..] == outcomes[k + 1..];
    }
  }

  class Sender {
    const net: Network
    const nSendBufferMaxSize: nat
    var vSendMsg: seq<seq<Byte>>
    var nSendSize: int
    var nSendOffset: nat
    var fPauseSend: bool

    /** What the socket has accepted, and every message pushed. */
    var sent: seq<Byte>
    ghost var msgs: seq<Message>

    ghost predicate Valid()
      reads this
    {
      && net.Valid() && AllWithinLimits(msgs)
      && NoneEmpty(vSendMsg)
      && nSendSize == TotalSize(vSendMsg)
      && (fPauseSend <==> nSendSize > nSendBufferMaxSize)
      && Underway(vSendMsg, nSendOffset, sent, Wire(net, msgs))
    }

    constructor (net: Network, nSendBufferMaxSize: nat)
      requires net.Valid()
      ensures Valid() && this.net == net && this.nSendBufferMaxSize == nSendBufferMaxSize && sent == [] && msgs == []
    {
      this.net, this.nSendBufferMaxSize := net, nSendBufferMaxSize;
      vSendMsg, nSendSize, nSendOffset, fPauseSend, sent, msgs := [], 0, 0, false, [], [];
    }

    /** Hands queued buffers to the socket until it will not take a whole one. The
        outcomes of the successive calls of send may be anything the socket allows:
        an error, nothing, or any prefix. */
    method SocketSendData(socketValid: bool, outcomes: seq<int>) returns (nSentSize: nat)
      requires Valid()
      modifies this
      ensures Valid() && msgs == old(msgs) && old(sent) <= sent && nSentSize == |sent| - |old(sent)|
      ensures nSentSize == Taken(old(vSendMsg), old(nSendOffset), socketValid, outcomes)
    {
      hide Wire, AllWithinLimits, Underway, Pending, Concat, Taken, TotalSize, Network.Valid;
      AllSent();
      nSentSize := 0;
      var nMsgCount := 0;
      ghost var wire := Wire(net, msgs);
      assert vSendMsg[0..] == vSendMsg && outcomes[0..] == outcomes;
      UnderwayBounds(vSendMsg, nSendOffset, sent, wire);
      ghost var goal := Taken(vSendMsg, nSendOffset, socketValid, outcomes);
      TakenNone(socketValid);
      while nMsgCount < |vSendMsg|
        invariant 0 <= nMsgCount <= |vSendMsg| && vSendMsg == old(vSendMsg) && NoneEmpty(vSendMsg)
        invariant msgs == old(msgs) && old(sent) <= sent && nSentSize == |sent| - |old(sent)|
        invariant nSendSize == TotalSize(vSendMsg[nMsgCount..]) && (fPauseSend <==> nSendSize > nSendBufferMaxSize)
        invariant Underway(vSendMsg[nMsgCount..], nSendOffset, sent, wire)
        invariant nMsgCount <= |outcomes| && (nMsgCount < |vSendMsg| ==> nSendOffset < |vSendMsg[nMsgCount]|)
        invariant nSentSize + Taken(vSendMsg[nMsgCount..], nSendOffset, socketValid, outcomes[nMsgCount..]) == goal
      {
        var data := vSendMsg[nMsgCount];
        UnderwayBounds(vSendMsg[nMsgCount..], nSendOffset, sent, wire);
        TakenStep(vSendMsg, nSendOffset, socketValid, outcomes, nMsgCount);
        assert |data| > nSendOffset;
        if !socketValid {
          break;
        }
        var nBytes := if nMsgCount < |outcomes| then Min(outcomes[nMsgCount], |data| - nSendOffset) else 0;
        if nBytes == 0 {
          break;
        }
        if nBytes < 0 {
          break;
        }
        nSentSize := nSentSize + nBytes;
        var whole := Accept(nMsgCount, nBytes, wire);
        if !whole {
          break;
        }
        nMsgCount := nMsgCount + 1;
        UnderwayBounds(vSendMsg[nMsgCount..], nSendOffset, sent, wire);
      }
      UnderwayBounds(vSendMsg[nMsgCount..], nSendOffset, sent, wire);
      vSendMsg := vSendMsg[nMsgCount..];
      if vSendMsg == [] {
        assert nSendOffset == 0;
        assert nSendSize == 0;
      }
    }

    /** The socket has accepted some bytes of a buffer; returns whether those were the last. */
    method Accept(nMsgCount: nat, nBytes: nat, ghost wire: seq<Byte>) returns (whole: bool)
      requires nMsgCount < |vSendMsg| && 0 < nBytes <= |vSendMsg[nMsgCount]| - nSendOffset && NoneEmpty(vSendMsg)
      requires nSendSize == TotalSize(vSendMsg[nMsgCount..]) && (fPauseSend <==> nSendSize > nSendBufferMaxSize)
      requires Underway(vSendMsg[nMsgCount..], nSendOffset, sent, wire)
      modifies this`sent, this`nSendOffset, this`nSendSize, this`fPauseSend
      ensures old(sent) <= sent && |sent| == |old(sent)| + nBytes
      ensures whole <==> nBytes == |vSendMsg[nMsgCount]| - old(nSendOffset)
      ensures nSendOffset == if whole then 0 else old(nSendOffset) + nBytes
      ensures var rest := if whole then vSendMsg[nMsgCount + 1..] else vSendMsg[nMsgCount..];
              Underway(rest, nSendOffset, sent, wire) && nSendSize == TotalSize(rest)
      ensures fPauseSend <==> nSendSize > nSendBufferMaxSize
    {
      hide Underway, Concat;
      var data := vSendMsg[nMsgCount];
      Accepted(vSendMsg[nMsgCount..], nSendOffset, nBytes, sent, wire);
      TailOf(vSendMsg, nMsgCount);
      sent := sent + data[nSendOffset..nSendOffset + nBytes];
      nSendOffset := nSendOffset + nBytes;
      whole := nSendOffset == |data|;
      if whole {
        nSendOffset := 0;
        nSendSize := nSendSize - |data|;
        fPauseSend := nSendSize > nSendBufferMaxSize;
      }
    }

    /** Queues a message and, if the queue was empty, tries to send at once. */
    method PushMessage(msg: Message, socketValid: bool, outcomes: seq<int>)
      requires Valid() && msg.WithinLimits()
      modifies this
      ensures Valid() && msgs == old(msgs) + [msg] && old(sent) <= sent
      ensures net.Layout(net.Header(msg), msg)
      ensures old(vSendMsg) != [] ==>
                && sent == old(sent)
                && vSendMsg == old(vSendMsg) + [net.Header(msg)] + if msg.data == [] then [] else [msg.data]
      ensures old(vSendMsg) == [] ==>
                var queue := [net.Header(msg)] + (if msg.data == [] then [] else [msg.data]);
                |sent| - |old(sent)| == Taken(queue, 0, socketValid, outcomes)
    {
      hide Wire, Underway, Pending, Concat, TotalSize, Taken, WriteLE32, Network.Layout;
      UnderwayBounds(vSendMsg, nSendOffset, sent, Wire(net, msgs));
      var size, sum := |msg.data| % 0x1_0000_0000, net.checksum(msg.data) % 0x1_0000_0000;
      var header := net.magic + msg.command + WriteLE32(size) + WriteLE32(sum);
      HeaderLayout(net, msg);
      var optimisticSend := vSendMsg == [];
      ghost var wire := Wire(net, msgs);
      WireAppend(net, msgs, msg);
      Enqueued(vSendMsg, nSendOffset, header, sent, wire);
      Enqueued(vSendMsg + [header], nSendOffset, msg.data, sent, wire + header);
      assert (wire + header) + [] == wire + header;
      nSendSize := nSendSize + |msg.data| + HEADER_SIZE;
      if nSendSize > nSendBufferMaxSize {
        fPauseSend := true;
      }
      vSendMsg := vSendMsg + [header];
      if |msg.data| > 0 {
        vSendMsg := vSendMsg + [msg.data];
      }
      msgs := msgs + [msg];
      if optimisticSend {
        assert vSendMsg == [header] + (if msg.data == [] then [] else [msg.data]);
        var nBytesSent := SocketSendData(socketValid, outcomes);
      }
    }
  }

  lemma AllSent()
    ensures TotalSize([]) == 0
  {
  }

  lemma TakenNone(socketValid: bool)
    ensures forall outcomes: seq<int> :: Taken([], 0, socketValid, outcomes) == 0
  {
  }

  lemma UnderwayBounds(bufs: seq<seq<Byte>>, offset: nat, sent: seq<Byte>, wire: seq<Byte>)
    requires Underway(bufs, offset, sent, wire)
    ensures bufs == [] ==> offset == 0
    ensures bufs != [] ==> offset < |bufs[0]|
  {
  }

  lemma TailOf(bufs: seq<seq<Byte>>, k: nat)
    requires k < |bufs|
    ensures bufs[k..] != [] && bufs[k..][0] == bufs[k] && bufs[k..][1..] == bufs[k + 1..]
    ensures TotalSize(bufs[k..]) == |bufs[k]| + TotalSize(bufs[k + 1..])
  {
    assert bufs[k..][1..] == bufs[k + 1..];
  }

  /** Accepting some bytes of the front buffer moves them from pending to sent; a
      buffer that is all sent makes way for the next. */
  lemma Accepted(bufs: seq<seq<Byte>>, offset: nat, k: nat, sent: seq<Byte>, wire: seq<Byte>)
    requires Underway(bufs, offset, sent, wire) && NoneEmpty(bufs)
    requires bufs != [] && k > 0 && offset + k <= |bufs[0]|
    ensures var now := sent + bufs[0][offset..offset + k];
            if offset + k < |bufs[0]| then Underway(bufs, offset + k, now, wire) else Underway(bufs[1..], 0, now, wire)
  {
    hide Concat;
    var piece, left, rest := bufs[0][offset..offset + k], bufs[0][offset + k..], Concat(bufs[1..]);
    assert bufs[0][offset..] == piece + left;
    Assoc(sent, piece, left, rest);
    if left == [] {
      assert left + rest == rest;
      PendingStart(bufs[1..]);
    }
  }

  lemma PendingStart(bufs: seq<seq<Byte>>)
    ensures Pending(bufs, 0) == Concat(bufs)
  {
    if bufs != [] {
      assert bufs[0][0..] == bufs[0];
    }
  }

  lemma Assoc(a: seq<Byte>, b: seq<Byte>, c: seq<Byte>, d: seq<Byte>)
    ensures (a + b) + (c + d) == a + ((b + c) + d)
  {
  }

  lemma PendingAppend(bufs: seq<seq<Byte>>, offset: nat, b: seq<Byte>)
    requires (bufs == [] ==> offset == 0) && (bufs != [] ==> offset <= |bufs[0]|)
    ensures Pending(bufs + [b], offset) == Pending(bufs, offset) + b
  {
    if bufs == [] {
      assert ([] + [b])[1..] == [] && b[0..] == b;
    } else {
      ConcatAppend(bufs[1..], b);
      assert (bufs + [b])[1..] == bufs[1..] + [b];
      hide Concat;
      Associate(bufs[0][offset..], Concat(bufs[1..]), b);
    }
  }

  lemma Associate(x: seq<Byte>, y: seq<Byte>, z: seq<Byte>)
    ensures x + (y + z) == (x + y) + z
  {
  }

  /** Queueing a buffer extends the wire by it. */
  lemma Enqueued(bufs: seq<seq<Byte>>, offset: nat, b: seq<Byte>, sent: seq<Byte>, wire: seq<Byte>)
    requires Underway(bufs, offset, sent, wire)
    ensures b != [] ==> Underway(bufs + [b], offset, sent, wire + b)
    ensures TotalSize(bufs + [b]) == TotalSize(bufs) + |b|
  {
    hide Pending, TotalSize, Concat;
    ConcatAppend(bufs, b);
    PendingAppend(bufs, offset, b);
    Associate(sent, Pending(bufs, offset), b);
  }

  // --------------------------------------------------------------- end to end

  /** One thing that happens on a connection. */
  datatype Event =
    | Push(msg: Message, socketValid: bool, outcomes: seq<int>)  // the sender queues a message
    | Drain(socketValid: bool, outcomes: seq<int>)               // the sender tries to send more
    | Deliver(n: nat)                                            // up to n sent bytes reach the receiver

  ghost function Pushed(events: seq<Event>): seq<Message> {
    if events == [] then [] else
      var last := events[|events| - 1];
      Pushed(events[..|events| - 1]) + (if last.Push? then [last.msg] else [])
  }

  /** A header read off a stream of legitimate messages is within the limits. */
  lemma HeaderWithinLimits(net: Network, front: seq<NetMessage>, hdr: seq<Byte>, sent: seq<Message>)
    requires net.Valid() && AllWithinLimits(sent) && |hdr| == HEADER_SIZE
    requires AllValid(front) && forall i | 0 <= i < |front| :: front[i].Complete()
    requires RawAll(front) + hdr <= Wire(net, sent)
    ensures SizeOf(hdr) <= MAX_PROTOCOL_MESSAGE_LENGTH
  {
    PrefixParses(net, front, hdr, sent);
    var next := sent[|front|..];
    HeaderSize(net, next[0]);
    assert hdr == Wire(net, next)[..24] == net.Header(next[0]);
  }

  /** So on such a stream the receiver never stops. */
  lemma NeverStops(net: Network, msgs: seq<NetMessage>, bytes: seq<Byte>, sent: seq<Message>)
    requires net.Valid() && AllWithinLimits(sent) && bytes <= Wire(net, sent)
    ensures !StoppedAt(msgs, bytes)
  {
    hide Wire, RawAll, SizeOf;
    if StoppedAt(msgs, bytes) {
      var front := msgs[..|msgs| - 1];
      HeaderWithinLimits(net, front, msgs[|front|].hdrbuf, sent);
    }
  }

  /** What has been completed of a prefix of the wire is a prefix of what was sent. */
  lemma CompletedIsSent(net: Network, msgs: seq<NetMessage>, sent: seq<Message>)
    requires net.Valid() && AllWithinLimits(sent) && Queue(msgs)
    requires RawAll(msgs) <= Wire(net, sent)
    ensures AllValid(CompletePart(msgs)) && SameMessages(net, CompletePart(msgs), sent)
  {
    Unfinished(msgs);
    var front := CompletePart(msgs);
    var m := if front == msgs then NewMessage() else msgs[|msgs| - 1];
    PrefixParses(net, front, m.Raw(), sent);
  }

  /** Of the first n bytes of the wire exactly those messages are completed that are in
      them as a whole. */
  lemma CompletedExactly(net: Network, msgs: seq<NetMessage>, sent: seq<Message>, n: nat)
    requires net.Valid() && AllWithinLimits(sent) && Queue(msgs)
    requires n <= |Wire(net, sent)| && RawAll(msgs) == Wire(net, sent)[..n]
    ensures var k := |CompletePart(msgs)|;
            && k <= |sent| && |Wire(net, sent[..k])| <= n
            && (k < |sent| ==> n < |Wire(net, sent[..k + 1])|)
            && (n == |Wire(net, sent)| ==> k == |sent|)
  {
    hide RawAll, NetMessage.Raw, SizeOf, Wire, AllWithinLimits, SameMessages;
    Unfinished(msgs);
    var front := CompletePart(msgs);
    var m := if front == msgs then NewMessage() else msgs[|msgs| - 1];
    var k := |front|;
    PrefixParses(net, front, m.Raw(), sent);
    NoMoreThanSent(net, front, sent);
    SameRaw(net, front, sent);
    if k < |sent| {
      WireSteps(net, sent, k);
      NextIncomplete(net, m, sent, k);
    }
  }

  lemma NoMoreThanSent(net: Network, msgs: seq<NetMessage>, sent: seq<Message>)
    requires net.Valid() && AllWithinLimits(sent) && SameMessages(net, msgs, sent)
    ensures |msgs| <= |sent|
    ensures forall k | 0 <= k <= |sent| :: AllWithinLimits(sent[..k]) && AllWithinLimits(sent[k..])
  {
  }

  /** How long the wire is up to and including a message. */
  lemma WireSteps(net: Network, sent: seq<Message>, k: nat)
    requires net.Valid() && AllWithinLimits(sent) && k < |sent|
    ensures AllWithinLimits(sent[..k]) && AllWithinLimits(sent[..k + 1]) && sent[k].WithinLimits()
    ensures |Wire(net, sent[..k + 1])| == |Wire(net, sent[..k])| + HEADER_SIZE + |sent[k].data|
    ensures |Wire(net, sent[..k + 1])| <= |Wire(net, sent)|
  {
    hide Wire;
    assert sent[..k + 1] == sent[..k] + [sent[k]] && sent == sent[..k + 1] + sent[k + 1..];
    WireAppend(net, sent[..k], sent[k]);
    WireConcat(net, sent[..k + 1], sent[k + 1..]);
  }

  lemma NextIncomplete(net: Network, m: NetMessage, sent: seq<Message>, k: nat)
    requires net.Valid() && k < |sent| && AllWithinLimits(sent[k..]) && m.Valid() && !m.Complete()
    requires m.Raw() <= Wire(net, sent[k..])
    ensures |m.Raw()| < HEADER_SIZE + |sent[k].data|
  {
    var rest := sent[k..];
    var more := Wire(net, rest[1..]);
    assert Wire(net, rest) == (net.Header(rest[0]) + rest[0].data) + more;
    hide Wire;
    Joined(net.Header(rest[0]), rest[0].data, more);
    ShortOf(net, m, rest[0], more);
  }

  /** The messages completed are exactly those sent that are in the delivered bytes as a whole. */
  ghost predicate Heard(net: Network, msgs: seq<NetMessage>, sent: seq<Message>, delivered: nat)
    requires net.Valid() && AllWithinLimits(sent)
  {
    && SameMessages(net, msgs, sent) && Arrived(net, msgs, sent)
    && |Wire(net, sent[..|msgs|])| <= delivered
    && (|msgs| < |sent| ==> delivered < |Wire(net, sent[..|msgs| + 1])|)
  }

  /** Any conversation, with any partial writes and any chunking: the receiver never
      rejects anything, and the messages it has completed are exactly those that are
      in the delivered bytes as a whole, with identical headers and payloads. When the
      queue has been sent and the bytes delivered, they are all there. */
  method Converse(net: Network, nSendBufferMaxSize: nat, events: seq<Event>)
    returns (sender: Sender, receiver: Receiver, delivered: nat)
    requires net.Valid() && forall i | 0 <= i < |events| :: events[i].Push? ==> events[i].msg.WithinLimits()
    ensures sender.Valid() && receiver.Valid()
    ensures sender.net == net && sender.msgs == Pushed(events)
    ensures delivered <= |sender.sent| && RawAll(receiver.vRecvMsg) == sender.sent[..delivered]
    ensures Heard(net, CompletePart(receiver.vRecvMsg), sender.msgs, delivered)
    ensures sender.vSendMsg == [] && delivered == |sender.sent| ==>
              |CompletePart(receiver.vRecvMsg)| == |sender.msgs|
  {
    sender := new Sender(net, nSendBufferMaxSize);
    receiver := new Receiver();
    delivered := 0;
    for i := 0 to |events|
      invariant fresh(sender) && fresh(receiver) && sender.net == net
      invariant sender.Valid() && receiver.Valid()
      invariant sender.msgs == Pushed(events[..i])
      invariant 0 <= delivered <= |sender.sent| && RawAll(receiver.vRecvMsg) == sender.sent[..delivered]
    {
      hide *;
      delivered := Happen(sender, receiver, events[i], delivered);
      PushedStep(events, i);
    }
    hide Wire, RawAll, SameMessages, Arrived;
    assert events[..|events|] == events;
    ghost var wire := Wire(net, sender.msgs);
    assert sender.sent <= wire && sender.sent[..delivered] == wire[..delivered];
    CompletedIsSent(net, receiver.vRecvMsg, sender.msgs);
    SameArrived(net, CompletePart(receiver.vRecvMsg), sender.msgs);
    CompletedExactly(net, receiver.vRecvMsg, sender.msgs, delivered);
  }

  lemma PushedStep(events: seq<Event>, i: nat)
    requires i < |events|
    ensures Pushed(events[..i + 1]) == Pushed(events[..i]) + (if events[i].Push? then [events[i].msg] else [])
  {
    assert events[..i + 1][..i] == events[..i];
  }

  method Happen(sender: Sender, receiver: Receiver, event: Event, delivered: nat) returns (now: nat)
    requires sender.Valid() && receiver.Valid() && (event.Push? ==> event.msg.WithinLimits())
    requires delivered <= |sender.sent| && RawAll(receiver.vRecvMsg) == sender.sent[..delivered]
    modifies sender, receiver
    ensures sender.Valid() && receiver.Valid()
    ensures sender.msgs == old(sender.msgs) + (if event.Push? then [event.msg] else [])
    ensures now <= |sender.sent| && RawAll(receiver.vRecvMsg) == sender.sent[..now]
  {
    hide Wire, RawAll, Underway, Queue;
    now := delivered;
    match event
    case Push(msg, socketValid, outcomes) => sender.PushMessage(msg, socketValid, outcomes);
    case Drain(socketValid, outcomes) => var n := sender.SocketSendData(socketValid, outcomes);
    case Deliver(n) => now := Hand(sender, receiver, delivered, Min(n, |sender.sent| - delivered));
  }

  /** Hands the next `k` bytes of the wire to the receiver. */
  method Hand(sender: Sender, receiver: Receiver, delivered: nat, k: nat) returns (now: nat)
    requires sender.Valid() && receiver.Valid() && delivered + k <= |sender.sent|
    requires RawAll(receiver.vRecvMsg) == sender.sent[..delivered]
    modifies receiver
    ensures receiver.Valid() && now == delivered + k && RawAll(receiver.vRecvMsg) == sender.sent[..now]
  {
    ghost var wire := Wire(sender.net, sender.msgs);
    assert sender.sent <= wire;
    hide Wire, RawAll, Underway, StoppedAt, Queue;
    var chunk := sender.sent[delivered..delivered + k];
    var ok, complete;
    ghost var eaten;
    ok, complete, eaten := receiver.ReceiveMsgBytes(chunk);
    assert sender.sent[..delivered] + chunk[..eaten] == sender.sent[..delivered + eaten];
    if !ok {
      assert sender.sent[..delivered + eaten] <= wire;
      NeverStops(sender.net, receiver.vRecvMsg, sender.sent[..delivered + eaten], sender.msgs);
      assert false;
    }
    assert chunk[..eaten] == chunk;
    now := delivered + k;
  }
}
