/** The receive and send buffers of a connection, step by step, against the byte stream of module Framing. */
module PeerBuffers {
  import opened Arithmetic
  import opened Wrappers
  import opened Framing

  const READ_AHEAD := 262144

  // ----- one incoming message

  datatype NetMessage = NetMessage(
    inData: bool, hdrbuf: Bytes, nHdrPos: nat, nMessageSize: nat, vRecv: Bytes, nDataPos: nat, hashed: Bytes)

  function NewMessage(): NetMessage {
    NetMessage(false, seq(HEADER_SIZE, i => 0), 0, 0xFFFF_FFFF, [], 0, [])
  }

  predicate IsComplete(m: NetMessage) {
    m.inData && m.nMessageSize == m.nDataPos
  }

  /** The buffers are large enough for what they hold, never longer than the announced size and never more than
      256 KiB ahead of the data; everything received has gone through the hasher. */
  predicate MessageOk(m: NetMessage) {
    && |m.hdrbuf| == HEADER_SIZE && m.nHdrPos <= HEADER_SIZE
    && (m.inData <==> m.nHdrPos == HEADER_SIZE)
    && (m.inData ==> m.nMessageSize == SizeField(m.hdrbuf) <= MAX_PROTOCOL_MESSAGE_LENGTH)
    && m.nDataPos <= |m.vRecv| <= m.nDataPos + READ_AHEAD && |m.vRecv| <= m.nMessageSize
    && (!m.inData ==> m.vRecv == [])
    && m.hashed == m.vRecv[..m.nDataPos]
  }

  function FrameOf(m: NetMessage): Frame
    requires MessageOk(m)
  {
    Frame(m.hdrbuf[..m.nHdrPos], m.vRecv[..m.nDataPos])
  }

  lemma CompleteIffFrame(m: NetMessage)
    requires MessageOk(m)
    ensures IsComplete(m) <==> Complete(FrameOf(m))
  {
    if m.inData { assert m.hdrbuf[..m.nHdrPos] == m.hdrbuf; }
  }

  /** Overwrites a part of a buffer. */
  function Copied(buf: Bytes, pos: nat, piece: Bytes): (r: Bytes)
    requires pos + |piece| <= |buf|
    ensures |r| == |buf| && r[..pos + |piece|] == buf[..pos] + piece
  {
    buf[..pos] + piece + buf[pos + |piece|..]
  }

  function Resized(buf: Bytes, n: nat): (r: Bytes)
    ensures |r| == n && (|buf| <= n ==> buf <= r)
  {
    if n <= |buf| then buf[..n] else buf + seq(n - |buf|, i => 0)
  }

  /** Takes header bytes; a negative result means that the header announces too much. */
  method ReadHeader(m: NetMessage, pch: Bytes) returns (after: NetMessage, handled: int)
    requires MessageOk(m) && !m.inData && pch != []
    ensures handled < 0 ==>
              && m.nHdrPos + |pch| >= HEADER_SIZE
              && SizeField(m.hdrbuf[..m.nHdrPos] + pch[..HEADER_SIZE - m.nHdrPos]) > MAX_SIZE
    ensures handled >= 0 ==> 0 < handled <= |pch| && handled == Min(HEADER_SIZE - m.nHdrPos, |pch|)
    ensures handled >= 0 ==>
              && |after.hdrbuf| == HEADER_SIZE && after.nHdrPos == m.nHdrPos + handled
              && after.hdrbuf[..after.nHdrPos] == m.hdrbuf[..m.nHdrPos] + pch[..handled]
              && (after.inData <==> after.nHdrPos == HEADER_SIZE)
              && (after.inData ==> after.nMessageSize == SizeField(after.hdrbuf) <= MAX_SIZE)
              && (!after.inData ==> after.nMessageSize == m.nMessageSize)
              && after.vRecv == m.vRecv && after.nDataPos == m.nDataPos && after.hashed == m.hashed
  {
    var nCopy := Min(HEADER_SIZE - m.nHdrPos, |pch|);
    after := m.(hdrbuf := Copied(m.hdrbuf, m.nHdrPos, pch[..nCopy]), nHdrPos := m.nHdrPos + nCopy);
    if after.nHdrPos < HEADER_SIZE { return after, nCopy; }
    assert after.hdrbuf[..HEADER_SIZE] == after.hdrbuf;
    after := after.(nMessageSize := SizeField(after.hdrbuf));
    if after.nMessageSize > MAX_SIZE { return after, -1; }
    after := after.(inData := true);
    return after, nCopy;
  }

  /** Takes data bytes, growing the buffer ahead of them but not beyond the announced size. */
  method ReadData(m: NetMessage, pch: Bytes) returns (after: NetMessage, handled: nat)
    requires MessageOk(m) && m.inData && !IsComplete(m) && pch != []
    ensures MessageOk(after) && after.inData && 0 < handled <= |pch|
    ensures handled == Min(m.nMessageSize - m.nDataPos, |pch|)
    ensures FrameOf(after) == Frame(FrameOf(m).header, FrameOf(m).data + pch[..handled])
    ensures IsComplete(after) ==> |after.vRecv| == after.nMessageSize
  {
    var nCopy := Min(m.nMessageSize - m.nDataPos, |pch|);
    after := m;
    if |m.vRecv| < m.nDataPos + nCopy {
      after := after.(vRecv := Resized(m.vRecv, Min(m.nMessageSize, m.nDataPos + nCopy + READ_AHEAD)));
    }
    after := after.(hashed := m.hashed + pch[..nCopy],
                    vRecv := Copied(after.vRecv, m.nDataPos, pch[..nCopy]), nDataPos := m.nDataPos + nCopy);
    handled := nCopy;
  }

  // ----- several bytes at once

  lemma {:induction false} FeedPartHeader(q: seq<Frame>, h: Bytes, c: Bytes)
    requires |h| < HEADER_SIZE && 0 < |c| && |h| + |c| <= HEADER_SIZE
    ensures FeedAll(q + [Frame(h, [])], c)
         == if |h| + |c| == HEADER_SIZE && SizeField(h + c) > MAX_PROTOCOL_MESSAGE_LENGTH then None
            else Some(q + [Frame(h + c, [])])
    decreases |c|
  {
    hide SizeField;
    var start := q + [Frame(h, [])];
    var init, b := c[..|c| - 1], c[|c| - 1];
    assert c == init + [b] && h + c == (h + init) + [b];
    FeedLast(start, init, b);
    if init == [] {
      assert FeedAll(start, init) == Some(start) && h + init == h;
    } else {
      FeedPartHeader(q, h, init);
    }
    var r := q + [Frame(h + init, [])];
    assert r[|q| := Frame(h + c, [])] == q + [Frame(h + c, [])];
  }

  lemma {:induction false} FeedPartData(q: seq<Frame>, h: Bytes, d: Bytes, c: Bytes)
    requires |h| == HEADER_SIZE && |d| + |c| <= SizeField(h)
    ensures FeedAll(q + [Frame(h, d)], c) == Some(q + [Frame(h, d + c)])
    decreases |c|
  {
    if c == [] {
      assert d + c == d;
    } else {
      var init, b := c[..|c| - 1], c[|c| - 1];
      assert c == init + [b] && d + c == (d + init) + [b];
      FeedLast(q + [Frame(h, d)], init, b);
      FeedPartData(q, h, d, init);
      var r := q + [Frame(h, d + init)];
      assert r[|q| := Frame(h, d + c)] == q + [Frame(h, d + c)];
    }
  }

  /** Opening the next frame early makes no difference. */
  lemma {:induction false} FeedOpened(q: seq<Frame>, c: Bytes)
    requires c != []
    ensures FeedAll(Open(q), c) == FeedAll(q, c)
    decreases |c|
  {
    var init, b := c[..|c| - 1], c[|c| - 1];
    FeedLast(q, init, b);
    FeedLast(Open(q), init, b);
    assert c == init + [b];
    if init == [] {
      assert FeedAll(q, init) == Some(q) && FeedAll(Open(q), init) == Some(Open(q));
      assert Open(Open(q)) == Open(q);
    } else {
      FeedOpened(q, init);
    }
  }

  // ----- the queue of incoming messages

  predicate MessagesOk(ms: seq<NetMessage>) {
    && (forall i :: 0 <= i < |ms| ==> MessageOk(ms[i]))
    && (forall i :: 0 <= i < |ms| - 1 ==> IsComplete(ms[i]))
  }

  function FramesOf(ms: seq<NetMessage>): (r: seq<Frame>)
    requires MessagesOk(ms)
    ensures |r| == |ms| && forall i :: 0 <= i < |ms| ==> r[i] == FrameOf(ms[i])
  {
    seq(|ms|, i requires 0 <= i < |ms| => FrameOf(ms[i]))
  }

  /** Gives the last message as much as it takes. */
  method Absorb(ms: seq<NetMessage>, pch: Bytes) returns (ok: bool, after: seq<NetMessage>, handled: nat)
    requires MessagesOk(ms) && ms != [] && !IsComplete(ms[|ms| - 1]) && pch != []
    ensures ok ==> MessagesOk(after) && |after| == |ms| && 0 < handled <= |pch|
    ensures ok ==> FeedAll(FramesOf(ms), pch[..handled]) == Some(FramesOf(after))
    ensures !ok ==> FeedAll(FramesOf(ms), pch).None?
  {
    hide FeedAll, SizeField;
    var n := |ms| - 1;
    var m := ms[n];
    ghost var q := FramesOf(ms)[..n];
    assert FramesOf(ms) == q + [FrameOf(m)];
    var last: NetMessage, taken: int;
    if !m.inData {
      last, taken := ReadHeader(m, pch);
      ghost var c := Min(HEADER_SIZE - m.nHdrPos, |pch|);
      FeedPartHeader(q, FrameOf(m).header, pch[..c]);
      FeedAllAppend(FramesOf(ms), pch[..c], pch[c..]);
      assert pch == pch[..c] + pch[c..];
      assert taken >= 0 && last.inData ==> last.hdrbuf[..HEADER_SIZE] == last.hdrbuf;
    } else {
      last, taken := ReadData(m, pch);
      assert m.hdrbuf[..HEADER_SIZE] == m.hdrbuf;
      FeedPartData(q, FrameOf(m).header, FrameOf(m).data, pch[..taken]);
    }
    if taken < 0 { return false, ms, 0; }
    if last.inData && last.nMessageSize > MAX_PROTOCOL_MESSAGE_LENGTH { return false, ms, 0; }
    after := ms[n := last];
    assert FramesOf(after) == q + [FrameOf(last)];
    return true, after, taken;
  }

  lemma FeedNothing(q: seq<Frame>)
    ensures FeedAll(q, []) == Some(q)
  {
  }

  lemma OpenLast(ms: seq<NetMessage>)
    requires MessagesOk(ms)
    ensures MessageOk(NewMessage()) && FrameOf(NewMessage()) == Frame([], [])
    ensures ms != [] ==> (IsComplete(ms[|ms| - 1]) <==> Complete(FramesOf(ms)[|ms| - 1]))
  {
    if ms != [] { CompleteIffFrame(ms[|ms| - 1]); }
  }

  /** A piece that stays within one frame finishes one frame or none. */
  lemma OneFinished(before: seq<Frame>, after: seq<Frame>, c: Bytes)
    requires FeedAll(before, c) == Some(after) && after != [] && |after| == |Open(before)|
    ensures Finished(before) <= Finished(after)
    ensures Finished(before) != Finished(after) <==> Complete(after[|after| - 1])
  {
    FinishedStay(before, c);
  }

  /** One turn of the receive loop: a new message is begun if needed, and takes what it can. */
  method TakePiece(ms: seq<NetMessage>, rest: Bytes) returns (ok: bool, after: seq<NetMessage>, handled: nat)
    requires MessagesOk(ms) && rest != []
    ensures ok ==> MessagesOk(after) && after != [] && 0 < handled <= |rest|
    ensures ok ==> FeedAll(FramesOf(ms), rest[..handled]) == Some(FramesOf(after))
    ensures ok ==> Finished(FramesOf(ms)) <= Finished(FramesOf(after))
    ensures ok ==> (Finished(FramesOf(ms)) != Finished(FramesOf(after)) <==> IsComplete(after[|after| - 1]))
    ensures !ok ==> FeedAll(FramesOf(ms), rest).None?
  {
    hide FeedAll, MessageOk, Complete;
    ghost var before := FramesOf(ms);
    OpenLast(ms);
    var begun := ms;
    if ms == [] || IsComplete(ms[|ms| - 1]) {
      begun := ms + [NewMessage()];
    }
    assert FramesOf(begun) == Open(before);
    ok, after, handled := Absorb(begun, rest);
    FeedOpened(before, rest);
    if ok {
      FeedOpened(before, rest[..handled]);
      OneFinished(before, FramesOf(after), rest[..handled]);
      CompleteIffFrame(after[|after| - 1]);
    }
  }
}
