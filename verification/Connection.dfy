/** A connection: received bytes are cut into messages, and messages are queued for the socket. */
module Connection {
  import opened Wrappers
  import opened Framing
  import opened PeerBuffers

  // ----- the send queue as a stream

  function Concat(q: seq<Bytes>): Bytes {
    if q == [] then [] else q[0] + Concat(q[1..])
  }

  lemma {:induction false} ConcatAppend(a: seq<Bytes>, b: seq<Bytes>)
    ensures Concat(a + b) == Concat(a) + Concat(b)
    decreases |a|
  {
    if a == [] {
      assert a + b == b;
    } else {
      ConcatAppend(a[1..], b);
      assert (a + b)[1..] == a[1..] + b;
    }
  }

  /** No entry is empty, and the front one is not sent completely. */
  predicate QueueOk(q: seq<Bytes>, offset: nat) {
    (forall i :: 0 <= i < |q| ==> q[i] != []) && (if q == [] then offset == 0 else offset < |q[0]|)
  }

  function Pending(q: seq<Bytes>, offset: nat): Bytes
    requires QueueOk(q, offset)
  {
    if q == [] then [] else Concat(q)[offset..]
  }

  /** Sending k bytes of the front entry takes them off the stream. */
  lemma PendingAdvances(v: seq<Bytes>, it: nat, offset: nat, k: nat)
    requires it < |v| && QueueOk(v[it..], offset) && 0 < k && offset + k <= |v[it]|
    ensures offset + k < |v[it]| ==>
              && QueueOk(v[it..], offset + k)
              && Pending(v[it..], offset) == v[it][offset..offset + k] + Pending(v[it..], offset + k)
    ensures offset + k == |v[it]| ==>
              && QueueOk(v[it + 1..], 0)
              && Pending(v[it..], offset) == v[it][offset..offset + k] + Pending(v[it + 1..], 0)
              && |Concat(v[it..])| == |v[it]| + |Concat(v[it + 1..])|
  {
    var q, rest := v[it..], Concat(v[it + 1..]);
    assert q[1..] == v[it + 1..] && q[0] == v[it];
    assert Concat(q) == q[0] + rest;
    assert Concat(q)[offset..] == q[0][offset..offset + k] + (q[0] + rest)[offset + k..];
    if offset + k == |q[0]| {
      assert (q[0] + rest)[|q[0]|..] == rest;
    }
  }

  /** What has been sent, from `was` on, and what is pending make up the whole. */
  ghost predicate Sent(was: Bytes, sent: Bytes, q: seq<Bytes>, offset: nat, all: Bytes) {
    was <= sent && QueueOk(q, offset) && sent + Pending(q, offset) == all
  }

  lemma SentMore(was: Bytes, sent: Bytes, v: seq<Bytes>, it: nat, offset: nat, k: nat, all: Bytes)
    requires it < |v| && Sent(was, sent, v[it..], offset, all) && 0 < k && offset + k <= |v[it]|
    ensures var now := sent + v[it][offset..offset + k];
            if offset + k < |v[it]| then Sent(was, now, v[it..], offset + k, all)
            else Sent(was, now, v[it + 1..], 0, all) && |Concat(v[it..])| == |v[it]| + |Concat(v[it + 1..])|
  {
    hide QueueOk, Pending, Concat;
    PendingAdvances(v, it, offset, k);
    var piece := v[it][offset..offset + k];
    if offset + k < |v[it]| {
      assert sent + piece + Pending(v[it..], offset + k) == sent + (piece + Pending(v[it..], offset + k));
    } else {
      assert sent + piece + Pending(v[it + 1..], 0) == sent + (piece + Pending(v[it + 1..], 0));
    }
  }

  lemma FrontPart(v: seq<Bytes>, it: nat, offset: nat)
    requires it <= |v| && QueueOk(v[it..], offset)
    ensures it < |v| ==> offset < |v[it]| <= |Concat(v[it..])|
    ensures it == |v| ==> offset == 0 && |Concat(v[it..])| == 0
  {
    if it < |v| { assert v[it..][0] == v[it]; }
  }

  lemma SentStart(sent: Bytes, q: seq<Bytes>, offset: nat)
    requires QueueOk(q, offset)
    ensures Sent(sent, sent, q, offset, sent + Pending(q, offset))
  {
    hide QueueOk, Pending;
  }

  lemma SentFacts(was: Bytes, sent: Bytes, v: seq<Bytes>, it: nat, offset: nat, all: Bytes)
    requires it <= |v| && Sent(was, sent, v[it..], offset, all)
    ensures was <= sent && QueueOk(v[it..], offset) && sent + Pending(v[it..], offset) == all
    ensures it < |v| ==> offset < |v[it]| <= |Concat(v[it..])|
    ensures it == |v| ==> offset == 0 && |Concat(v[it..])| == 0
  {
    hide QueueOk, Pending, Concat;
    FrontPart(v, it, offset);
  }

  /** The socket takes n bytes whenever it is asked. */
  ghost predicate Willing(socket: nat -> int, n: nat) {
    forall k: nat :: socket(k) >= n
  }

  // ----- what has arrived

  ghost predicate AllComplete(ms: seq<NetMessage>) {
    MessagesOk(ms) && forall i :: 0 <= i < |ms| ==> IsComplete(ms[i])
  }

  /** The bytes received are the messages taken out of the receive queue, which are complete, and those in it. */
  ghost predicate Arrived(received: Bytes, done: seq<Frame>, q: seq<Frame>) {
    Ready(done) && FeedAll([], received) == Some(done + q)
  }

  lemma ArrivedNothing()
    ensures Arrived([], [], [])
  {
    var none: seq<Frame> := [];
    assert none + none == none;
  }

  /** More bytes go to the receive queue only. */
  lemma ArrivedMore(received: Bytes, done: seq<Frame>, q: seq<Frame>, bytes: Bytes)
    requires Arrived(received, done, q)
    ensures var r := FeedAll(q, bytes);
            && (r.Some? ==> Arrived(received + bytes, done, r.value))
            && (FeedAll([], received + bytes).Some? <==> r.Some?)
  {
    hide FeedAll, Ready;
    FeedAllAppend([], received, bytes);
    FeedBehind(done, q, bytes);
  }

  /** Taking complete messages from the front of the receive queue changes nothing about what has arrived. */
  lemma ArrivedMoved(received: Bytes, done: seq<Frame>, q: seq<Frame>, n: nat)
    requires Arrived(received, done, q) && n <= |q| && (n > 0 ==> Complete(q[n - 1]))
    ensures Arrived(received, done + q[..n], q[n..])
  {
    hide FeedAll, Complete;
    assert done + q[..n] + q[n..] == done + q;
    if n > 0 { assert (done + q[..n])[|done| + n - 1] == q[n - 1]; } else { assert done + q[..n] == done; }
  }

  lemma QueueMoved(waiting: seq<NetMessage>, receiving: seq<NetMessage>, n: nat)
    requires AllComplete(waiting) && MessagesOk(receiving) && n <= |receiving| && AllComplete(receiving[..n])
    ensures AllComplete(waiting + receiving[..n]) && MessagesOk(receiving[n..])
    ensures FramesOf(waiting + receiving[..n]) == FramesOf(waiting) + FramesOf(receiving)[..n]
    ensures FramesOf(receiving[n..]) == FramesOf(receiving)[n..]
    ensures n > 0 ==> Complete(FramesOf(receiving)[n - 1])
  {
    hide FrameOf, MessageOk, IsComplete, Complete;
    assert forall i :: 0 <= i < n ==> receiving[..n][i] == receiving[i];
    if n > 0 { CompleteIffFrame(receiving[n - 1]); }
  }

  lemma FirstHandled(processed: seq<Frame>, waiting: seq<NetMessage>)
    requires AllComplete(waiting) && waiting != []
    ensures MessageOk(waiting[0]) && AllComplete(waiting[1..])
    ensures processed + [FrameOf(waiting[0])] + FramesOf(waiting[1..]) == processed + FramesOf(waiting)
  {
    hide FrameOf, MessageOk, IsComplete;
    assert FramesOf(waiting) == [FrameOf(waiting[0])] + FramesOf(waiting[1..]);
    Regrouped(processed, FrameOf(waiting[0]), FramesOf(waiting[1..]));
  }

  lemma Regrouped(done: seq<Frame>, f: Frame, rest: seq<Frame>)
    ensures done + [f] + rest == done + ([f] + rest)
  {
  }

  /** The bytes that the waiting messages take up. */
  function QueueSize(ms: seq<NetMessage>): nat {
    if ms == [] then 0 else |ms[0].vRecv| + HEADER_SIZE + QueueSize(ms[1..])
  }

  lemma {:induction false} QueueSizeAppend(a: seq<NetMessage>, b: seq<NetMessage>)
    ensures QueueSize(a + b) == QueueSize(a) + QueueSize(b)
    decreases |a|
  {
    if a == [] {
      assert a + b == b;
    } else {
      QueueSizeAppend(a[1..], b);
      assert (a + b)[1..] == a[1..] + b;
    }
  }

  /** How many messages at the front are complete, and their size. */
  method FinishedPart(ms: seq<NetMessage>) returns (it: nat, nSizeAdded: nat)
    requires MessagesOk(ms)
    ensures it <= |ms| && AllComplete(ms[..it]) && (it < |ms| ==> !IsComplete(ms[it])) && nSizeAdded == QueueSize(ms[..it])
  {
    hide MessagesOk, AllComplete, QueueSize;
    it, nSizeAdded := 0, 0;
    NothingMoved(ms);
    while it < |ms| && IsComplete(ms[it])
      invariant it <= |ms| && AllComplete(ms[..it]) && nSizeAdded == QueueSize(ms[..it])
    {
      OneMoved(ms, it);
      nSizeAdded := nSizeAdded + |ms[it].vRecv| + HEADER_SIZE;
      it := it + 1;
    }
  }

  class Node {
    const net: Network
    const nSendBufferMaxSize: nat
    const nReceiveFloodSize: nat

    var vRecvMsg: seq<NetMessage>
    var vProcessMsg: seq<NetMessage>
    var nProcessQueueSize: int
    var fPauseRecv: bool

    var vSendMsg: seq<Bytes>
    var nSendOffset: nat
    var nSendSize: nat
    var fPauseSend: bool
    /** What the socket has taken so far, the messages pushed so far, and the bytes received so far. */
    ghost var sent: Bytes
    ghost var pushed: seq<Message>
    ghost var received: Bytes
    /** The messages handed out for processing so far. */
    ghost var processed: seq<Frame>

    /** The receiving side. */
    ghost predicate Receiving()
      reads this`vRecvMsg, this`vProcessMsg, this`nProcessQueueSize, this`fPauseRecv, this`received, this`processed
    {
      && MessagesOk(vRecvMsg) && AllComplete(vProcessMsg)
      && Arrived(received, processed + FramesOf(vProcessMsg), FramesOf(vRecvMsg))
      && nProcessQueueSize == QueueSize(vProcessMsg)
      && (fPauseRecv <==> nProcessQueueSize > nReceiveFloodSize)
    }

    /** The sending side. */
    ghost predicate Sending()
      requires NetworkOk(net)
      reads this`vSendMsg, this`nSendOffset, this`nSendSize, this`fPauseSend, this`sent, this`pushed
    {
      && QueueOk(vSendMsg, nSendOffset)
      && nSendSize == |Concat(vSendMsg)|
      && (fPauseSend <==> nSendSize > nSendBufferMaxSize)
      && sent + Pending(vSendMsg, nSendOffset) == Stream(net, pushed)
    }

    ghost predicate Valid()
      reads this
    {
      NetworkOk(net) && Receiving() && Sending()
    }

    constructor (net: Network, nSendBufferMaxSize: nat, nReceiveFloodSize: nat)
      requires NetworkOk(net)
      ensures Valid() && vRecvMsg == [] && vProcessMsg == [] && vSendMsg == []
      ensures sent == [] && pushed == [] && received == [] && processed == []
      ensures this.net == net && this.nSendBufferMaxSize == nSendBufferMaxSize && this.nReceiveFloodSize == nReceiveFloodSize
    {
      ArrivedNothing();
      this.net, this.nSendBufferMaxSize, this.nReceiveFloodSize := net, nSendBufferMaxSize, nReceiveFloodSize;
      vProcessMsg, nProcessQueueSize, fPauseRecv, processed := [], 0, false, [];
      vRecvMsg, vSendMsg, nSendOffset, nSendSize, fPauseSend := [], [], 0, 0, false;
      sent, pushed, received := [], [], [];
    }

    /** The result depends on the bytes only, not on how they are split into calls. */
    method ReceiveMsgBytes(pch: Bytes) returns (ok: bool, complete: bool)
      requires Valid()
      modifies `vRecvMsg, `received
      ensures ok <==> FeedAll(FramesOf(old(vRecvMsg)), pch).Some?
      ensures ok ==> Valid() && received == old(received) + pch
      ensures ok ==> FramesOf(vRecvMsg) == FeedAll(FramesOf(old(vRecvMsg)), pch).value
      ensures ok ==> (complete <==> Finished(FramesOf(vRecvMsg)) != Finished(FramesOf(old(vRecvMsg))))
    {
      hide FeedAll, MessagesOk, Finished, NetworkOk, Sending, Arrived, QueueSize, IsComplete;
      complete := false;
      ghost var start := FramesOf(vRecvMsg);
      var pos := 0;
      FeedNothing(start);
      while pos < |pch|
        invariant 0 <= pos <= |pch| && Valid() && received == old(received) + pch[..pos]
        invariant FeedAll(start, pch[..pos]) == Some(FramesOf(vRecvMsg))
        invariant complete <==> Finished(FramesOf(vRecvMsg)) != Finished(start)
        invariant Finished(start) <= Finished(FramesOf(vRecvMsg))
      {
        var rest := pch[pos..];
        var fine, after, handled := TakePiece(vRecvMsg, rest);
        FeedAllAppend(start, pch[..pos], rest);
        assert pch == pch[..pos] + rest;
        if !fine { return false, complete; }
        FeedAllAppend(start, pch[..pos], rest[..handled]);
        assert pch[..pos] + rest[..handled] == pch[..pos + handled];
        ArrivedMore(received, processed + FramesOf(vProcessMsg), FramesOf(vRecvMsg), rest[..handled]);
        vRecvMsg, received := after, received + rest[..handled];
        if IsComplete(vRecvMsg[|vRecvMsg| - 1]) { complete := true; }
        pos := pos + handled;
      }
      assert pch[..pos] == pch;
      return true, complete;
    }

    /** What the socket thread does after a message has been finished: all finished messages go to the message handler. */
    method MoveFinished()
      requires Valid()
      modifies `vRecvMsg, `vProcessMsg, `nProcessQueueSize, `fPauseRecv
      ensures Valid() && Finished(FramesOf(vRecvMsg)) == []
      ensures vProcessMsg + vRecvMsg == old(vProcessMsg + vRecvMsg) && old(vProcessMsg) <= vProcessMsg
    {
      hide FeedAll, NetworkOk, Sending, Arrived, MessagesOk, QueueSize, Finished, FramesOf, Complete, IsComplete;
      var it, nSizeAdded := FinishedPart(vRecvMsg);
      QueueMoved(vProcessMsg, vRecvMsg, it);
      ArrivedMoved(received, processed + FramesOf(vProcessMsg), FramesOf(vRecvMsg), it);
      assert processed + FramesOf(vProcessMsg + vRecvMsg[..it]) == processed + FramesOf(vProcessMsg) + FramesOf(vRecvMsg)[..it];
      QueueSizeAppend(vProcessMsg, vRecvMsg[..it]);
      NoneFinished(vRecvMsg, it);
      vProcessMsg, vRecvMsg := vProcessMsg + vRecvMsg[..it], vRecvMsg[it..];
      nProcessQueueSize := nProcessQueueSize + nSizeAdded;
      fPauseRecv := nProcessQueueSize > nReceiveFloodSize;
    }

    /** The message handler takes one message. */
    method TakeMessage() returns (m: Option<NetMessage>, fMoreWork: bool)
      requires Valid()
      modifies `vProcessMsg, `nProcessQueueSize, `fPauseRecv, `processed
      ensures Valid() && (m.None? <==> old(vProcessMsg) == []) && (fMoreWork <==> vProcessMsg != [])
      ensures m.None? ==> processed == old(processed)
      ensures m.Some? ==> [m.value] + vProcessMsg == old(vProcessMsg)
      ensures m.Some? ==> MessageOk(m.value) && processed == old(processed) + [FrameOf(m.value)]
    {
      hide FeedAll, NetworkOk, Sending, Arrived, MessagesOk, FrameOf, MessageOk, AllComplete, FramesOf;
      if vProcessMsg == [] { return None, false; }
      FirstHandled(processed, vProcessMsg);
      var first := vProcessMsg[0];
      processed := processed + [FrameOf(first)];
      vProcessMsg := vProcessMsg[1..];
      nProcessQueueSize := nProcessQueueSize - (|first.vRecv| + HEADER_SIZE);
      fPauseRecv := nProcessQueueSize > nReceiveFloodSize;
      return Some(first), vProcessMsg != [];
    }

    /** Hands queued bytes to the socket, in order, until it takes no more: what is sent and what is still queued is
        always the stream of the messages pushed, as Valid says. The k-th call finds it ready for socket(k)
        bytes; nothing positive stands for an error or a closed socket. A socket that takes everything is given everything. */
    method SocketSendData(socket: nat -> int) returns (nSentSize: nat)
      requires Valid()
      modifies `vSendMsg, `nSendOffset, `nSendSize, `fPauseSend, `sent
      ensures Valid()
      ensures old(sent) <= sent && |sent| == |old(sent)| + nSentSize
      ensures vSendMsg == [] ==> nSendOffset == 0 && nSendSize == 0
      ensures Willing(socket, |old(Concat(vSendMsg))|) ==> vSendMsg == []
    {
      hide Concat, Pending, QueueOk, NetworkOk, Stream, Receiving, Sent;
      nSentSize := 0;
      var it, calls: nat := 0, 0;
      ghost var size := nSendSize;
      assert vSendMsg[0..] == vSendMsg;
      ghost var all := sent + Pending(vSendMsg, nSendOffset);
      SentStart(sent, vSendMsg, nSendOffset);
      while it < |vSendMsg|
        invariant 0 <= it <= |vSendMsg| && vSendMsg == old(vSendMsg)
        invariant Sent(old(sent), sent, vSendMsg[it..], nSendOffset, all) && |sent| == |old(sent)| + nSentSize
        invariant nSendSize == |Concat(vSendMsg[it..])| <= size && (fPauseSend <==> nSendSize > nSendBufferMaxSize)
      {
        var data := vSendMsg[it];
        SentFacts(old(sent), sent, vSendMsg, it, nSendOffset, all);
        assert |data| > nSendOffset;
        var ready := socket(calls);
        calls := calls + 1;
        var nBytes := if ready < |data| - nSendOffset then ready else |data| - nSendOffset;
        if nBytes > 0 {
          SentMore(old(sent), sent, vSendMsg, it, nSendOffset, nBytes, all);
          sent := sent + data[nSendOffset..nSendOffset + nBytes];
          nSendOffset := nSendOffset + nBytes;
          nSentSize := nSentSize + nBytes;
          if nSendOffset == |data| {
            nSendOffset := 0;
            nSendSize := nSendSize - |data|;
            fPauseSend := nSendSize > nSendBufferMaxSize;
            it := it + 1;
          } else {
            break;
          }
        } else {
          break;
        }
      }
      SentFacts(old(sent), sent, vSendMsg, it, nSendOffset, all);
      vSendMsg := vSendMsg[it..];
    }

    /** Queues a message; an empty queue is sent right away. */
    method PushMessage(m: Message, socket: nat -> int) returns (nBytesSent: nat)
      requires Valid()
      modifies `vSendMsg, `nSendOffset, `nSendSize, `fPauseSend, `sent, `pushed
      ensures Valid() && pushed == old(pushed) + [m]
      ensures old(sent) <= sent && |sent| == |old(sent)| + nBytesSent
      ensures old(vSendMsg) == [] && Willing(socket, |Encode(net, m)|) ==> vSendMsg == []
    {
      hide Header, Pending, QueueOk, NetworkOk, Stream, Receiving;
      var nTotalSize := |m.data| + HEADER_SIZE;
      var header := Header(net, m);
      var optimisticSend := vSendMsg == [];
      var added := [header] + if m.data != [] then [m.data] else [];
      PendingGrows(vSendMsg, nSendOffset, added);
      EncodedParts(net, m);
      StreamGrows(net, pushed, m);
      pushed := pushed + [m];
      nSendSize := nSendSize + nTotalSize;
      if nSendSize > nSendBufferMaxSize { fPauseSend := true; }
      vSendMsg := vSendMsg + added;
      nBytesSent := 0;
      if optimisticSend { nBytesSent := SocketSendData(socket); }
    }
  }

  lemma NothingMoved(ms: seq<NetMessage>)
    ensures AllComplete(ms[..0]) && QueueSize(ms[..0]) == 0
  {
  }

  lemma OneMoved(ms: seq<NetMessage>, n: nat)
    requires n < |ms| && MessagesOk(ms) && IsComplete(ms[n]) && AllComplete(ms[..n])
    ensures AllComplete(ms[..n + 1]) && QueueSize(ms[..n + 1]) == QueueSize(ms[..n]) + |ms[n].vRecv| + HEADER_SIZE
  {
    assert ms[..n + 1] == ms[..n] + [ms[n]];
    QueueSizeAppend(ms[..n], [ms[n]]);
    assert [ms[n]][1..] == [];
  }

  /** Only the last message can be unfinished, so nothing finished is left behind it. */
  lemma NoneFinished(ms: seq<NetMessage>, n: nat)
    requires MessagesOk(ms) && n <= |ms| && (n < |ms| ==> !IsComplete(ms[n]))
    ensures MessagesOk(ms[n..]) && Finished(FramesOf(ms[n..])) == []
  {
    hide FrameOf, MessageOk, IsComplete, Complete;
    if n < |ms| {
      assert n == |ms| - 1;
      assert ms[n..] == [ms[n]];
      CompleteIffFrame(ms[n]);
    }
  }

  lemma PendingGrows(q: seq<Bytes>, offset: nat, added: seq<Bytes>)
    requires QueueOk(q, offset) && added != [] && forall i :: 0 <= i < |added| ==> added[i] != []
    ensures QueueOk(q + added, offset) && Concat(q + added) == Concat(q) + Concat(added)
    ensures Pending(q + added, offset) == Pending(q, offset) + Concat(added)
  {
    ConcatAppend(q, added);
    if q == [] { assert Concat(q) == []; }
    else { assert |q[0]| <= |Concat(q)|; }
  }

  lemma EncodedParts(net: Network, m: Message)
    requires NetworkOk(net)
    ensures Concat([Header(net, m)] + if m.data != [] then [m.data] else []) == Encode(net, m)
  {
    hide Header;
    var h := Header(net, m);
    ConcatAppend([h], if m.data != [] then [m.data] else []);
  }

  lemma StreamGrows(net: Network, ms: seq<Message>, m: Message)
    requires NetworkOk(net)
    ensures Stream(net, ms + [m]) == Stream(net, ms) + Encode(net, m)
  {
    hide Encode;
    assert (ms + [m])[..|ms|] == ms;
  }

  // ----- two nodes

  /** All messages that have arrived at a node, the last one possibly in part. */
  ghost function Messages(n: Node): seq<Frame>
    requires n.Valid()
    reads n
  {
    n.processed + FramesOf(n.vProcessMsg) + FramesOf(n.vRecvMsg)
  }

  /** However the wire cuts the bytes and however far it has come, the messages that the receiver has finished, and
      those that it has processed, are the first ones pushed, in order and unchanged; and once everything is sent and
      received, the receiver has got all of them and nothing else. */
  lemma Delivered(sender: Node, receiver: Node)
    requires sender.Valid() && receiver.Valid() && Deliverable(sender.pushed) && receiver.received <= sender.sent
    ensures Finished(Messages(receiver)) <= Frames(sender.net, sender.pushed)
    ensures receiver.processed + FramesOf(receiver.vProcessMsg) <= Frames(sender.net, sender.pushed)
    ensures sender.vSendMsg == [] && receiver.received == sender.sent
        ==> Messages(receiver) == Frames(sender.net, sender.pushed)
  {
    hide FeedAll, Frames, Stream, MessagesOk, Concat, NetworkOk, WellFormed, Wire, QueueSize, FramesOf, AllComplete, Finished;
    PrefixDelivered(sender.net, sender.pushed, receiver.received);
    AllDelivered(sender.net, sender.pushed);
    if sender.vSendMsg == [] { assert sender.sent + [] == sender.sent; }
    KnownComplete(receiver.vProcessMsg);
    FinishedFront(receiver.processed + FramesOf(receiver.vProcessMsg), FramesOf(receiver.vRecvMsg));
  }

  lemma KnownComplete(ms: seq<NetMessage>)
    requires AllComplete(ms)
    ensures MessagesOk(ms)
  {
  }

  lemma FinishedFront(done: seq<Frame>, q: seq<Frame>)
    requires Ready(done)
    ensures done <= Finished(done + q)
  {
    if q == [] { assert done + q == done; }
  }

  /** The receiver never drops such a connection: the next bytes off the wire are accepted, whatever their number. */
  lemma NeverDropped(sender: Node, receiver: Node, pch: Bytes)
    requires sender.Valid() && receiver.Valid() && Deliverable(sender.pushed) && receiver.received + pch <= sender.sent
    ensures FeedAll(FramesOf(receiver.vRecvMsg), pch).Some?
  {
    hide FeedAll, Finished, Frames, MessagesOk, Concat, NetworkOk, Arrived, QueueSize, FramesOf, AllComplete;
    KnownComplete(receiver.vProcessMsg);
    PrefixDelivered(sender.net, sender.pushed, receiver.received + pch);
    var done := receiver.processed + FramesOf(receiver.vProcessMsg);
    ArrivedMore(receiver.received, done, FramesOf(receiver.vRecvMsg), pch);
  }
}
