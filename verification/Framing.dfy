/** The wire format of messages between peers, and what a receiver makes of a stream of bytes. */
module Framing {
  import opened Wrappers

  type Byte = x: int | 0 <= x < 256
  type Bytes = seq<Byte>

  const COMMAND_SIZE := 12
  const HEADER_SIZE := 24
  const MAX_SIZE := 0x02000000
  const MAX_PROTOCOL_MESSAGE_LENGTH := 4000000

  /** The network's start bytes and the hash from which checksums are taken. */
  datatype Network = Network(start: Bytes, hash: Bytes -> Bytes)

  ghost predicate NetworkOk(net: Network) {
    |net.start| == 4 && forall data: Bytes :: |net.hash(data)| == 32
  }

  // ----- headers

  function ToLittleEndian(n: nat): (r: Bytes)
    requires n < 0x1_0000_0000
    ensures |r| == 4
  {
    [n % 0x100, n / 0x100 % 0x100, n / 0x1_0000 % 0x100, n / 0x100_0000]
  }

  function FromLittleEndian(b: Bytes): (n: nat)
    requires |b| == 4
    ensures n < 0x1_0000_0000
  {
    b[0] as int + 0x100 * b[1] as int + 0x1_0000 * b[2] as int + 0x100_0000 * b[3] as int
  }

  lemma LittleEndianRoundTrip(n: nat)
    requires n < 0x1_0000_0000
    ensures FromLittleEndian(ToLittleEndian(n)) == n
  {
    assert n / 0x1_0000 == n / 0x100 / 0x100;
    assert n / 0x100_0000 == n / 0x1_0000 / 0x100;
  }

  /** The command as it is stored: cut or filled up with zeros to twelve bytes. */
  function PadCommand(command: Bytes): (r: Bytes)
    ensures |r| == COMMAND_SIZE
    decreases COMMAND_SIZE - |command|
  {
    if |command| >= COMMAND_SIZE then command[..COMMAND_SIZE] else PadCommand(command + [0])
  }

  /** The command read back: everything ahead of the first zero. */
  function UnpadCommand(stored: Bytes): Bytes {
    if stored == [] || stored[0] == 0 then [] else [stored[0]] + UnpadCommand(stored[1..])
  }

  lemma {:induction false} CommandRoundTrip(command: Bytes)
    requires |command| <= COMMAND_SIZE && 0 !in command
    ensures UnpadCommand(PadCommand(command)) == command
  {
    PadStarts(command);
    UnpadStops(PadCommand(command), command);
  }

  lemma {:induction false} PadStarts(command: Bytes)
    requires |command| <= COMMAND_SIZE
    ensures command <= PadCommand(command)
    ensures |command| < COMMAND_SIZE ==> PadCommand(command)[|command|] == 0
    decreases COMMAND_SIZE - |command|
  {
    if |command| < COMMAND_SIZE {
      PadStarts(command + [0]);
      assert (command + [0])[|command|] == 0;
    }
  }

  lemma {:induction false} UnpadStops(stored: Bytes, command: Bytes)
    requires command <= stored && 0 !in command
    requires |command| == |stored| || stored[|command|] == 0
    ensures UnpadCommand(stored) == command
    decreases |command|
  {
    if command != [] {
      UnpadStops(stored[1..], command[1..]);
    }
  }

  datatype Message = Message(command: Bytes, data: Bytes)

  function Header(net: Network, m: Message): (h: Bytes)
    requires NetworkOk(net)
    ensures |h| == HEADER_SIZE
  {
    net.start + PadCommand(m.command) + ToLittleEndian(|m.data| % 0x1_0000_0000) + net.hash(m.data)[..4]
  }

  function SizeField(h: Bytes): (n: nat)
    requires |h| == HEADER_SIZE
    ensures n < 0x1_0000_0000
  {
    FromLittleEndian(h[16..20])
  }

  function Command(h: Bytes): Bytes
    requires |h| == HEADER_SIZE
  {
    UnpadCommand(h[4..16])
  }

  function Checksum(h: Bytes): Bytes
    requires |h| == HEADER_SIZE
  {
    h[20..24]
  }

  lemma HeaderFields(net: Network, m: Message)
    requires NetworkOk(net) && |m.data| < 0x1_0000_0000
    ensures var h := Header(net, m);
            && h[..4] == net.start && SizeField(h) == |m.data| && Checksum(h) == net.hash(m.data)[..4]
            && (|m.command| <= COMMAND_SIZE && 0 !in m.command ==> Command(h) == m.command)
  {
    var h := Header(net, m);
    LittleEndianRoundTrip(|m.data|);
    assert h[16..20] == ToLittleEndian(|m.data|);
    assert h[4..16] == PadCommand(m.command);
    if |m.command| <= COMMAND_SIZE && 0 !in m.command { CommandRoundTrip(m.command); }
  }

  // ----- the receiver, one byte at a time

  /** A message as far as it has been received. */
  datatype Frame = Frame(header: Bytes, data: Bytes)

  predicate Complete(f: Frame) {
    |f.header| == HEADER_SIZE && |f.data| == SizeField(f.header)
  }

  function Open(q: seq<Frame>): (r: seq<Frame>)
    ensures r != []
  {
    if q == [] || Complete(q[|q| - 1]) then q + [Frame([], [])] else q
  }

  /** Takes in one byte; None means that the connection is dropped. */
  function Feed(q: seq<Frame>, b: Byte): Option<seq<Frame>> {
    var p := Open(q);
    var f := p[|p| - 1];
    if |f.header| < HEADER_SIZE then
      var h := f.header + [b];
      if |h| == HEADER_SIZE && SizeField(h) > MAX_PROTOCOL_MESSAGE_LENGTH then None
      else Some(p[|p| - 1 := f.(header := h)])
    else Some(p[|p| - 1 := f.(data := f.data + [b])])
  }

  function FeedAll(q: seq<Frame>, bytes: Bytes): Option<seq<Frame>> {
    if bytes == [] then Some(q)
    else
      var before := FeedAll(q, bytes[..|bytes| - 1]);
      if before.None? then None else Feed(before.value, bytes[|bytes| - 1])
  }

  lemma FeedLast(q: seq<Frame>, bytes: Bytes, b: Byte)
    ensures FeedAll(q, bytes + [b]) == var r := FeedAll(q, bytes); if r.None? then None else Feed(r.value, b)
  {
    assert (bytes + [b])[..|bytes|] == bytes;
  }

  /** How the stream is cut into pieces does not matter. */
  lemma {:induction false} FeedAllAppend(q: seq<Frame>, a: Bytes, b: Bytes)
    ensures FeedAll(q, a + b) == var r := FeedAll(q, a); if r.None? then None else FeedAll(r.value, b)
    decreases |b|
  {
    if b == [] {
      assert a + b == a;
    } else {
      FeedAllAppend(q, a, b[..|b| - 1]);
      assert (a + b)[..|a + b| - 1] == a + b[..|b| - 1];
    }
  }

  // ----- nothing is lost or invented

  function Wire(q: seq<Frame>): Bytes {
    if q == [] then [] else Wire(q[..|q| - 1]) + q[|q| - 1].header + q[|q| - 1].data
  }

  /** Only the last frame may be incomplete, and data starts after the header. */
  predicate WellFormed(q: seq<Frame>) {
    && (forall i :: 0 <= i < |q| - 1 ==> Complete(q[i]))
    && (forall i :: 0 <= i < |q| ==> 0 < |q[i].header| <= HEADER_SIZE)
    && (forall i :: 0 <= i < |q| && |q[i].header| < HEADER_SIZE ==> q[i].data == [])
    && (forall i :: 0 <= i < |q| && |q[i].header| == HEADER_SIZE ==>
          |q[i].data| <= SizeField(q[i].header) <= MAX_PROTOCOL_MESSAGE_LENGTH)
  }

  lemma FeedKeeps(q: seq<Frame>, b: Byte)
    requires WellFormed(q) && Feed(q, b).Some?
    ensures WellFormed(Feed(q, b).value) && Wire(Feed(q, b).value) == Wire(q) + [b]
  {
    FeedWellFormed(q, b);
    FeedWire(q, b);
  }

  lemma FeedWellFormed(q: seq<Frame>, b: Byte)
    requires WellFormed(q) && Feed(q, b).Some?
    ensures WellFormed(Feed(q, b).value)
  {
    var p := Open(q);
    assert forall i :: 0 <= i < |p| - 1 ==> Complete(p[i]);
  }

  lemma FeedWire(q: seq<Frame>, b: Byte)
    requires WellFormed(q) && Feed(q, b).Some?
    ensures Wire(Feed(q, b).value) == Wire(q) + [b]
  {
    hide SizeField, Wire, WellFormed;
    OpenWire(q);
    var p, r := Open(q), Feed(q, b).value;
    var n := |p| - 1;
    WireLast(p);
    WireLast(r);
    assert r[..n] == p[..n];
    var front, f := Wire(p[..n]), p[n];
    if |f.header| < HEADER_SIZE {
      assert front + (f.header + [b]) + [] == (front + f.header + []) + [b];
    } else {
      assert front + f.header + (f.data + [b]) == (front + f.header + f.data) + [b];
    }
  }

  lemma WireLast(q: seq<Frame>)
    requires q != []
    ensures Wire(q) == Wire(q[..|q| - 1]) + q[|q| - 1].header + q[|q| - 1].data
  {
  }

  lemma OpenWire(q: seq<Frame>)
    requires WellFormed(q)
    ensures Wire(Open(q)) == Wire(q)
    ensures var f := Open(q)[|Open(q)| - 1]; |f.header| < HEADER_SIZE ==> f.data == []
  {
    var p := Open(q);
    if p != q { assert p[..|p| - 1] == q; }
  }

  /** What has been received is exactly what was sent, cut into frames. */
  lemma {:induction false} ReceivedIsSent(q: seq<Frame>, bytes: Bytes)
    requires WellFormed(q) && FeedAll(q, bytes).Some?
    ensures WellFormed(FeedAll(q, bytes).value) && Wire(FeedAll(q, bytes).value) == Wire(q) + bytes
    decreases |bytes|
  {
    hide WellFormed, Wire, Feed;
    if bytes != [] {
      var init := bytes[..|bytes| - 1];
      ReceivedIsSent(q, init);
      FeedKeeps(FeedAll(q, init).value, bytes[|bytes| - 1]);
      assert Wire(q) + bytes == Wire(q) + init + [bytes[|bytes| - 1]];
    }
  }

  /** The frames that can be handed on. */
  function Finished(q: seq<Frame>): seq<Frame> {
    if q == [] || Complete(q[|q| - 1]) then q else q[..|q| - 1]
  }

  /** Finished messages stay as they are while more arrives. */
  lemma {:induction false} FinishedStay(q: seq<Frame>, bytes: Bytes)
    requires FeedAll(q, bytes).Some?
    ensures Finished(q) <= FeedAll(q, bytes).value && Finished(q) <= Finished(FeedAll(q, bytes).value)
    decreases |bytes|
  {
    if bytes != [] {
      FinishedStay(q, bytes[..|bytes| - 1]);
    }
  }

  // ----- delivery

  function Encode(net: Network, m: Message): Bytes
    requires NetworkOk(net)
  {
    Header(net, m) + m.data
  }

  function Stream(net: Network, ms: seq<Message>): Bytes
    requires NetworkOk(net)
  {
    if ms == [] then [] else Stream(net, ms[..|ms| - 1]) + Encode(net, ms[|ms| - 1])
  }

  function Frames(net: Network, ms: seq<Message>): (r: seq<Frame>)
    requires NetworkOk(net)
    ensures |r| == |ms| && forall i :: 0 <= i < |ms| ==> r[i] == Frame(Header(net, ms[i]), ms[i].data)
  {
    seq(|ms|, i requires 0 <= i < |ms| => Frame(Header(net, ms[i]), ms[i].data))
  }

  predicate Ready(q: seq<Frame>) {
    q == [] || Complete(q[|q| - 1])
  }

  /** Frames that are complete stay as they are, and what arrives behind them does not depend on them. */
  lemma {:induction false} FeedBehind(done: seq<Frame>, q: seq<Frame>, bytes: Bytes)
    requires Ready(done)
    ensures FeedAll(done + q, bytes) == var r := FeedAll(q, bytes); if r.None? then None else Some(done + r.value)
    decreases |bytes|
  {
    hide Feed, Complete;
    if bytes != [] {
      var init := bytes[..|bytes| - 1];
      FeedBehind(done, q, init);
      var r := FeedAll(q, init);
      if r.Some? { FeedOneBehind(done, r.value, bytes[|bytes| - 1]); }
    }
  }

  lemma FeedOneBehind(done: seq<Frame>, q: seq<Frame>, b: Byte)
    requires Ready(done)
    ensures Feed(done + q, b) == var r := Feed(q, b); if r.None? then None else Some(done + r.value)
  {
    hide SizeField, Open;
    OpenBehind(done, q);
    var p := Open(q);
    var f := p[|p| - 1];
    ReplaceLast(done, p, f.(header := f.header + [b]));
    ReplaceLast(done, p, f.(data := f.data + [b]));
  }

  lemma OpenBehind(done: seq<Frame>, q: seq<Frame>)
    requires Ready(done)
    ensures Open(done + q) == done + Open(q)
  {
    hide Complete;
    if q == [] { assert done + q == done; }
    else if Complete(q[|q| - 1]) { assert done + (q + [Frame([], [])]) == (done + q) + [Frame([], [])]; }
  }

  lemma ReplaceLast(done: seq<Frame>, p: seq<Frame>, f: Frame)
    requires p != []
    ensures (done + p)[|done + p| - 1] == p[|p| - 1]
    ensures (done + p)[|done + p| - 1 := f] == done + p[|p| - 1 := f]
  {
  }

  lemma {:induction false} FeedHeader(q: seq<Frame>, h: Bytes, k: nat)
    requires Ready(q) && |h| == HEADER_SIZE && 1 <= k <= HEADER_SIZE
    requires k == HEADER_SIZE ==> SizeField(h) <= MAX_PROTOCOL_MESSAGE_LENGTH
    ensures FeedAll(q, h[..k]) == Some(q + [Frame(h[..k], [])])
  {
    hide SizeField, FeedAll, Feed;
    FeedLast(q, h[..k - 1], h[k - 1]);
    assert h[..k - 1] + [h[k - 1]] == h[..k];
    assert k == HEADER_SIZE ==> h[..k] == h;
    if k == 1 {
      FeedFirst(q, h[0]);
      assert h[..0] == [] && h[..1] == [h[0]];
    } else {
      FeedHeader(q, h, k - 1);
      FeedNext(q, h[..k - 1], h[k - 1]);
    }
  }

  lemma FeedFirst(q: seq<Frame>, b: Byte)
    requires Ready(q)
    ensures FeedAll(q, []) == Some(q) && Feed(q, b) == Some(q + [Frame([b], [])])
  {
    assert Open(q) == q + [Frame([], [])] && [] + [b] == [b];
    assert Open(q)[|q| := Frame([b], [])] == q + [Frame([b], [])];
  }

  lemma FeedNext(q: seq<Frame>, h: Bytes, b: Byte)
    requires 0 < |h| < HEADER_SIZE
    requires |h| == HEADER_SIZE - 1 ==> SizeField(h + [b]) <= MAX_PROTOCOL_MESSAGE_LENGTH
    ensures Feed(q + [Frame(h, [])], b) == Some(q + [Frame(h + [b], [])])
  {
    var r := q + [Frame(h, [])];
    assert r[|q| := Frame(h + [b], [])] == q + [Frame(h + [b], [])];
  }

  lemma {:induction false} FeedData(q: seq<Frame>, h: Bytes, d: Bytes, k: nat)
    requires |h| == HEADER_SIZE && k <= |d| == SizeField(h)
    ensures FeedAll(q + [Frame(h, [])], d[..k]) == Some(q + [Frame(h, d[..k])])
    decreases k
  {
    if k == 0 {
      assert d[..0] == [];
    } else {
      assert d[..k][..k - 1] == d[..k - 1] && d[..k - 1] + [d[k - 1]] == d[..k];
      FeedData(q, h, d, k - 1);
      var r := q + [Frame(h, d[..k - 1])];
      assert r[|q| := Frame(h, d[..k])] == q + [Frame(h, d[..k])];
    }
  }

  /** A whole message becomes one more finished frame, unless it is too long: then the connection is dropped. */
  lemma FeedMessage(net: Network, q: seq<Frame>, m: Message)
    requires NetworkOk(net) && Ready(q) && |m.data| < 0x1_0000_0000
    ensures FeedAll(q, Encode(net, m))
         == if |m.data| <= MAX_PROTOCOL_MESSAGE_LENGTH then Some(q + [Frame(Header(net, m), m.data)]) else None
  {
    hide Header, FeedAll, SizeField;
    var h := Header(net, m);
    HeaderFields(net, m);
    FeedAllAppend(q, h, m.data);
    if |m.data| <= MAX_PROTOCOL_MESSAGE_LENGTH {
      FeedHeader(q, h, HEADER_SIZE);
      assert h[..HEADER_SIZE] == h && m.data[..|m.data|] == m.data;
      FeedData(q, h, m.data, |m.data|);
    } else {
      FeedHeader(q, h, HEADER_SIZE - 1);
      FeedLast(q, h[..HEADER_SIZE - 1], h[HEADER_SIZE - 1]);
      assert h[..HEADER_SIZE - 1] + [h[HEADER_SIZE - 1]] == h;
    }
  }

  predicate Deliverable(ms: seq<Message>) {
    forall i :: 0 <= i < |ms| ==> |ms[i].data| <= MAX_PROTOCOL_MESSAGE_LENGTH
  }

  /** The whole stream is accepted if and only if no message is too long, and then every message arrives. */
  lemma {:induction false} AllDelivered(net: Network, ms: seq<Message>)
    requires NetworkOk(net) && forall i :: 0 <= i < |ms| ==> |ms[i].data| < 0x1_0000_0000
    ensures FeedAll([], Stream(net, ms)) == if Deliverable(ms) then Some(Frames(net, ms)) else None
    ensures Ready(Frames(net, ms))
    decreases |ms|
  {
    hide Encode, FeedAll, Header;
    if ms == [] {
      FeedFirst([], 0);
    } else {
      var init, last := ms[..|ms| - 1], ms[|ms| - 1];
      AllDelivered(net, init);
      HeaderFields(net, last);
      FeedAllAppend([], Stream(net, init), Encode(net, last));
      FeedMessage(net, Frames(net, init), last);
      assert Frames(net, ms) == Frames(net, init) + [Frame(Header(net, last), last.data)];
      assert Deliverable(ms) <==> Deliverable(init) && |last.data| <= MAX_PROTOCOL_MESSAGE_LENGTH;
    }
  }

  /** After any part of the stream the finished messages are the first ones sent, in order and unchanged, and
      nothing of the part received is lost. */
  lemma PrefixDelivered(net: Network, ms: seq<Message>, received: Bytes)
    requires NetworkOk(net) && Deliverable(ms) && received <= Stream(net, ms)
    ensures FeedAll([], received).Some?
    ensures var q := FeedAll([], received).value;
            Finished(q) <= Frames(net, ms) && WellFormed(q) && Wire(q) == received
  {
    AllDelivered(net, ms);
    var rest := Stream(net, ms)[|received|..];
    assert received + rest == Stream(net, ms);
    FeedAllAppend([], received, rest);
    FinishedStay(FeedAll([], received).value, rest);
    ReceivedIsSent([], received);
  }
}
