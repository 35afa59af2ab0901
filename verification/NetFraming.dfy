/** The message stream of a connection (src/protocol.h, src/net.cpp): how messages are framed, and how a byte
    stream falls apart into frames. */
module Frames {
  type Byte = x: nat | x < 256

  const HEADER_SIZE := 24
  const MAX_SIZE := 0x200_0000
  const MAX_MESSAGE_LENGTH := 4_000_000

  datatype Message = Message(command: seq<Byte>, data: seq<Byte>)

  /** A header of 24 bytes and the data that it announces. */
  datatype Frame = Frame(header: seq<Byte>, data: seq<Byte>)

  /** What is fixed for a network: the start bytes and the hash of message data. */
  datatype Network = Network(start: seq<Byte>, hash: seq<Byte> -> seq<Byte>) {
    ghost predicate Valid() { |start| == 4 && forall d :: |hash(d)| >= 4 }
  }

  /** An unsigned 32-bit number, lowest byte first. */
  function Le32(n: nat): seq<Byte> {
    [n % 256, n / 256 % 256, n / 256 / 256 % 256, n / 256 / 256 / 256 % 256]
  }

  function FromLe32(b: seq<Byte>): nat
    requires |b| == 4
  {
    b[0] as nat + 256 * b[1] as nat + 0x1_0000 * b[2] as nat + 0x100_0000 * b[3] as nat
  }

  lemma Le32RoundTrip(n: nat)
    requires n < 0x1_0000_0000
    ensures FromLe32(Le32(n)) == n
  {
    var p := n / 256;
    var q := p / 256;
    var r := q / 256;
    assert n == 256 * p + n % 256 && p == 256 * q + p % 256 && q == 256 * r + q % 256 && r < 256;
  }

  function Padded(command: seq<Byte>): (p: seq<Byte>)
    ensures |p| == 12
  {
    if |command| >= 12 then command[..12] else command + seq(12 - |command|, _ => 0)
  }

  /** The header of a message: start, command, size and checksum. */
  function HeaderOf(net: Network, m: Message): (h: seq<Byte>)
    requires net.Valid()
    ensures |h| == HEADER_SIZE
  {
    net.start + Padded(m.command) + Le32(|m.data|) + net.hash(m.data)[..4]
  }

  function SizeOf(header: seq<Byte>): nat
    requires |header| == HEADER_SIZE
  {
    FromLe32(header[16..20])
  }

  ghost function FrameOf(net: Network, m: Message): Frame
    requires net.Valid()
  {
    Frame(HeaderOf(net, m), m.data)
  }

  lemma HeaderSize(net: Network, m: Message)
    requires net.Valid() && |m.data| < 0x1_0000_0000
    ensures SizeOf(HeaderOf(net, m)) == |m.data|
  {
    assert HeaderOf(net, m)[16..20] == Le32(|m.data|);
    Le32RoundTrip(|m.data|);
  }

  /** `GetCommand`: the command field up to its first zero. */
  function UpToZero(s: seq<Byte>): seq<Byte> {
    if s == [] || s[0] == 0 then [] else [s[0]] + UpToZero(s[1..])
  }

  lemma {:induction false} UpToZeroIs(c: seq<Byte>, z: seq<Byte>)
    requires (forall i :: 0 <= i < |c| ==> c[i] != 0) && (z != [] ==> z[0] == 0)
    ensures UpToZero(c + z) == c
  {
    if c == [] {
      assert c + z == z;
    } else {
      assert (c + z)[1..] == c[1..] + z;
      UpToZeroIs(c[1..], z);
    }
  }

  /** A command of up to twelve characters can be read back from the header. */
  lemma HeaderCommand(net: Network, m: Message)
    requires net.Valid() && |m.command| <= 12 && forall i :: 0 <= i < |m.command| ==> m.command[i] != 0
    ensures UpToZero(HeaderOf(net, m)[4..16]) == m.command
  {
    assert HeaderOf(net, m)[4..16] == Padded(m.command);
    var z: seq<Byte> := seq(12 - |m.command|, _ => 0);
    assert Padded(m.command) == m.command + z;
    UpToZeroIs(m.command, z);
  }

  /** The other fields: the start bytes of the network, the first twelve bytes of a long command, the size with the
      lowest byte first, and the first four bytes of the hash of the data. */
  lemma HeaderFields(net: Network, m: Message)
    requires net.Valid() && |m.data| < 0x1_0000_0000
    ensures var h := HeaderOf(net, m);
            && h[..4] == net.start && h[20..] == net.hash(m.data)[..4]
            && (|m.command| >= 12 ==> h[4..16] == m.command[..12])
            && |m.data| == h[16] as nat + 256 * h[17] as nat + 65536 * h[18] as nat + 16777216 * h[19] as nat
  {
    var h := HeaderOf(net, m);
    Le32RoundTrip(|m.data|);
    assert h[16..20] == Le32(|m.data|);
    assert h[16] == h[16..20][0] && h[17] == h[16..20][1] && h[18] == h[16..20][2] && h[19] == h[16..20][3];
  }

  /** The bytes of messages one after the other. */
  ghost function Wire(net: Network, ms: seq<Message>): seq<Byte>
    requires net.Valid()
  {
    if ms == [] then [] else HeaderOf(net, ms[0]) + ms[0].data + Wire(net, ms[1..])
  }

  // ----- how a stream falls apart -----

  /** The frames of a stream and the bytes of an unfinished one, or a header that announces too much. */
  datatype Scanned = Bad | Good(frames: seq<Frame>, rest: seq<Byte>)

  ghost function Scan(s: seq<Byte>): Scanned {
    if |s| < HEADER_SIZE then Good([], s)
    else
      var size := SizeOf(s[..HEADER_SIZE]);
      if size > MAX_MESSAGE_LENGTH then Bad
      else if |s| < HEADER_SIZE + size then Good([], s)
      else After([Frame(s[..HEADER_SIZE], s[HEADER_SIZE..HEADER_SIZE + size])], Scan(s[HEADER_SIZE + size..]))
  }

  /** What decides about the first bytes of a stream: a header that announces more than four million bytes is bad; one
      that announces more than there is has to wait. */
  lemma FirstHeader(s: seq<Byte>)
    requires |s| >= 24
    ensures var size := s[16] as nat + 256 * s[17] as nat + 65536 * s[18] as nat + 16777216 * s[19] as nat;
            && (size > 4000000 ==> Scan(s) == Bad)
            && (size <= 4000000 && |s| < 24 + size ==> Scan(s) == Good([], s))
            && (size <= 4000000 && |s| >= 24 + size ==>
                  Scan(s) == After([Frame(s[..24], s[24..24 + size])], Scan(s[24 + size..])))
  {
    var b := s[..24][16..20];
    assert b[0] == s[16] && b[1] == s[17] && b[2] == s[18] && b[3] == s[19];
  }

  /** A scan after some frames. */
  ghost function After(frames: seq<Frame>, r: Scanned): Scanned {
    match r
    case Bad => Bad
    case Good(fs, rest) => Good(frames + fs, rest)
  }

  lemma AfterAfter(a: seq<Frame>, b: seq<Frame>, r: Scanned)
    ensures After(a, After(b, r)) == After(a + b, r)
  {
    match r
    case Bad =>
    case Good(fs, rest) => assert a + (b + fs) == (a + b) + fs;
  }

  /** Only the unfinished bytes matter for what comes next. */
  lemma {:induction false} ScanAppend(s: seq<Byte>, t: seq<Byte>)
    ensures Scan(s + t) == match Scan(s) case Bad => Bad case Good(frames, rest) => After(frames, Scan(rest + t))
    decreases |s|
  {
    if |s| >= HEADER_SIZE {
      var h := s[..HEADER_SIZE];
      var size := SizeOf(h);
      assert (s + t)[..HEADER_SIZE] == h;
      if size <= MAX_MESSAGE_LENGTH && |s| >= HEADER_SIZE + size {
        var n := HEADER_SIZE + size;
        var f := Frame(h, s[HEADER_SIZE..n]);
        assert (s + t)[HEADER_SIZE..n] == f.data && (s + t)[n..] == s[n..] + t;
        ScanAppend(s[n..], t);
        match Scan(s[n..])
        case Bad =>
        case Good(frames, rest) => AfterAfter([f], frames, Scan(rest + t));
      } else {
        AfterNothing(Scan(s + t));
      }
    } else {
      AfterNothing(Scan(s + t));
    }
  }

  lemma AfterNothing(r: Scanned)
    ensures After([], r) == r
  {
    if r.Good? {
      assert [] + r.frames == r.frames;
    }
  }

  ghost predicate Sendable(ms: seq<Message>) {
    forall i :: 0 <= i < |ms| ==> |ms[i].data| <= MAX_MESSAGE_LENGTH
  }

  ghost function FramesOf(net: Network, ms: seq<Message>): (fs: seq<Frame>)
    requires net.Valid()
    ensures |fs| == |ms|
  {
    seq(|ms|, i requires 0 <= i < |ms| => FrameOf(net, ms[i]))
  }

  /** Messages within the limit are found again, one by one, in the stream of their bytes. */
  lemma {:induction false} ScanWire(net: Network, ms: seq<Message>)
    requires net.Valid() && Sendable(ms)
    ensures Scan(Wire(net, ms)) == Good(FramesOf(net, ms), [])
  {
    if ms != [] {
      var h, d, w := HeaderOf(net, ms[0]), ms[0].data, Wire(net, ms[1..]);
      var s := h + d + w;
      HeaderSize(net, ms[0]);
      assert s[..HEADER_SIZE] == h && s[HEADER_SIZE..HEADER_SIZE + |d|] == d && s[HEADER_SIZE + |d|..] == w;
      ScanWire(net, ms[1..]);
      assert FramesOf(net, ms) == [FrameOf(net, ms[0])] + FramesOf(net, ms[1..]);
    }
  }

  /** Of any part of that stream, exactly the finished messages are found, in order. */
  lemma PartOfWire(net: Network, ms: seq<Message>, part: seq<Byte>)
    requires net.Valid() && Sendable(ms) && part <= Wire(net, ms)
    ensures Scan(part).Good? && Scan(part).frames <= FramesOf(net, ms)
    ensures Wire(net, ms[..|Scan(part).frames|]) + Scan(part).rest == part
  {
    var t := Wire(net, ms)[|part|..];
    assert part + t == Wire(net, ms);
    ScanWire(net, ms);
    ScanAppend(part, t);
    ScannedBytes(part);
    var fs := Scan(part).frames;
    assert fs == FramesOf(net, ms)[..|fs|] == FramesOf(net, ms[..|fs|]);
    WireBytes(net, ms[..|fs|]);
  }

  ghost function Bytes(fs: seq<Frame>): seq<Byte> {
    if fs == [] then [] else fs[0].header + fs[0].data + Bytes(fs[1..])
  }

  /** A scan loses nothing. */
  lemma {:induction false} ScannedBytes(s: seq<Byte>)
    ensures Scan(s).Good? ==> Bytes(Scan(s).frames) + Scan(s).rest == s
  {
    if |s| >= HEADER_SIZE {
      var n := HEADER_SIZE + SizeOf(s[..HEADER_SIZE]);
      if n <= HEADER_SIZE + MAX_MESSAGE_LENGTH && |s| >= n {
        ScannedBytes(s[n..]);
        var r := Scan(s[n..]);
        if r.Good? {
          var f := Frame(s[..HEADER_SIZE], s[HEADER_SIZE..n]);
          assert ([f] + r.frames)[1..] == r.frames;
          assert s == f.header + f.data + s[n..];
        }
      }
    }
  }

  lemma {:induction false} WireBytes(net: Network, ms: seq<Message>)
    requires net.Valid()
    ensures Wire(net, ms) == Bytes(FramesOf(net, ms))
  {
    if ms != [] {
      WireBytes(net, ms[1..]);
      assert FramesOf(net, ms)[1..] == FramesOf(net, ms[1..]);
    }
  }
}

/** Sending (src/net.cpp: PushMessage, SocketSendData). */
module Sending {
  import opened Hiding
  import opened Frames

  ghost function Total(q: seq<seq<Byte>>): nat {
    if q == [] then 0 else |q[0]| + Total(q[1..])
  }

  ghost function Flat(q: seq<seq<Byte>>): (s: seq<Byte>)
    ensures |s| == Total(q)
  {
    if q == [] then [] else q[0] + Flat(q[1..])
  }

  lemma {:induction false} FlatAppend(p: seq<seq<Byte>>, x: seq<Byte>)
    ensures Flat(p + [x]) == Flat(p) + x
  {
    if p == [] {
      assert p + [x] == [x];
      assert Flat([x]) == x + Flat([]);
    } else {
      assert (p + [x])[1..] == p[1..] + [x];
      FlatAppend(p[1..], x);
    }
  }

  lemma {:induction false} WireAppend(net: Network, ms: seq<Message>, m: Message)
    requires net.Valid()
    ensures Wire(net, ms + [m]) == Wire(net, ms) + HeaderOf(net, m) + m.data
  {
    if ms == [] {
      assert ms + [m] == [m];
      assert Wire(net, [m]) == HeaderOf(net, m) + m.data + Wire(net, []);
    } else {
      assert (ms + [m])[1..] == ms[1..] + [m];
      WireAppend(net, ms[1..], m);
    }
  }

  // ----- the queue as a value -----

  /** No item is empty, and the offset lies within the first one. */
  ghost predicate QueueOk(q: seq<seq<Byte>>, offset: nat, size: nat) {
    assert IsQueueOk(q, offset, size, QueueForm(q, offset) && size == Total(q));
    var ok :| IsQueueOk(q, offset, size, ok);
    ok
  }

  ghost predicate IsQueueOk(q: seq<seq<Byte>>, offset: nat, size: nat, ok: bool) {
    forall n :: Look(n) ==> ok == (QueueForm(q, offset) && size == Total(q))
  }

  ghost predicate QueueForm(q: seq<seq<Byte>>, offset: nat) {
    (forall i :: 0 <= i < |q| ==> q[i] != []) && if q == [] then offset == 0 else offset < |q[0]|
  }

  lemma QueueFacts(q: seq<seq<Byte>>, offset: nat, size: nat)
    requires QueueOk(q, offset, size)
    ensures QueueForm(q, offset) && (q == [] ==> size == 0)
  {
    assert Look(0);
  }

  lemma QueueTotal(q: seq<seq<Byte>>, offset: nat, size: nat)
    requires QueueOk(q, offset, size)
    ensures size == Total(q)
  {
    assert Look(0);
  }

  /** What the socket took and what the queue holds is the stream of all messages. */
  ghost predicate StreamOk(net: Network, sent: seq<Byte>, q: seq<seq<Byte>>, offset: nat, pushed: seq<Message>) {
    assert IsStreamOk(net, sent, q, offset, pushed, Whole(net, sent, q, offset, pushed));
    var ok :| IsStreamOk(net, sent, q, offset, pushed, ok);
    ok
  }

  ghost predicate Whole(net: Network, sent: seq<Byte>, q: seq<seq<Byte>>, offset: nat, pushed: seq<Message>) {
    net.Valid() && offset <= Total(q) && sent + Flat(q)[offset..] == Wire(net, pushed)
  }

  ghost predicate IsStreamOk(net: Network, sent: seq<Byte>, q: seq<seq<Byte>>, offset: nat, pushed: seq<Message>,
                             ok: bool)
  {
    forall n :: Look(n) ==> ok == Whole(net, sent, q, offset, pushed)
  }

  /** How many bytes go out if the socket returns `results` for one call after the other. */
  ghost function Accepted(q: seq<seq<Byte>>, offset: nat, results: seq<int>): int {
    if q == [] || results == [] || results[0] <= 0 then 0
    else if results[0] < |q[0]| - offset then results[0]
    else |q[0]| - offset + Accepted(q[1..], 0, results[1..])
  }

  /** A socket that takes all it is offered empties the queue; one that takes less ends the loop at once. */
  lemma {:induction false} AcceptedAll(q: seq<seq<Byte>>, offset: nat, results: seq<int>)
    requires QueueForm(q, offset) && |results| >= |q|
    requires forall i :: 0 <= i < |q| ==> results[i] >= |q[i]|
    ensures Accepted(q, offset, results) == Total(q) - offset
  {
    if q != [] {
      assert q[1..] == [] || q[1..][0] == q[1];
      AcceptedAll(q[1..], 0, results[1..]);
    }
  }

  lemma AcceptedLess(q: seq<seq<Byte>>, offset: nat, results: seq<int>)
    requires QueueForm(q, offset) && q != [] && results != [] && results[0] < |q[0]| - offset
    ensures Accepted(q, offset, results) == if results[0] < 0 then 0 else results[0]
  {
  }

  function WithMessage(q: seq<seq<Byte>>, header: seq<Byte>, data: seq<Byte>): seq<seq<Byte>> {
    if |data| != 0 then q + [header] + [data] else q + [header]
  }

  lemma StreamPush(net: Network, sent: seq<Byte>, q: seq<seq<Byte>>, offset: nat, pushed: seq<Message>, m: Message)
    requires net.Valid() && StreamOk(net, sent, q, offset, pushed)
    ensures StreamOk(net, sent, WithMessage(q, HeaderOf(net, m), m.data), offset, pushed + [m])
    ensures Total(WithMessage(q, HeaderOf(net, m), m.data)) == Total(q) + HEADER_SIZE + |m.data|
  {
    var h := HeaderOf(net, m);
    FlatWithMessage(q, h, m.data);
    WireAppend(net, pushed, m);
    Assoc(Flat(q), h, m.data);
    Assoc(Wire(net, pushed), h, m.data);
    StreamGrows(net, sent, q, WithMessage(q, h, m.data), offset, pushed, pushed + [m], h + m.data);
  }

  lemma FlatWithMessage(q: seq<seq<Byte>>, h: seq<Byte>, d: seq<Byte>)
    ensures Flat(WithMessage(q, h, d)) == Flat(q) + h + d
  {
    FlatAppend(q, h);
    FlatAppend(q + [h], d);
  }

  lemma StreamGrows(net: Network, sent: seq<Byte>, q: seq<seq<Byte>>, q': seq<seq<Byte>>, offset: nat,
                    ms: seq<Message>, ms': seq<Message>, x: seq<Byte>)
    requires net.Valid() && StreamOk(net, sent, q, offset, ms)
    requires Flat(q') == Flat(q) + x && Wire(net, ms') == Wire(net, ms) + x
    ensures StreamOk(net, sent, q', offset, ms')
  {
    assert Look(0);
    DropAppend(sent, Flat(q), x, offset);
  }

  lemma DropAppend(s: seq<Byte>, f: seq<Byte>, x: seq<Byte>, k: nat)
    requires k <= |f|
    ensures s + (f + x)[k..] == (s + f[k..]) + x
  {
    assert (f + x)[k..] == f[k..] + x;
  }

  lemma Assoc(s: seq<Byte>, x: seq<Byte>, y: seq<Byte>)
    ensures s + x + y == s + (x + y)
  {
  }

  lemma QueuePush(q: seq<seq<Byte>>, offset: nat, size: nat, header: seq<Byte>, data: seq<Byte>)
    requires QueueOk(q, offset, size) && |header| > 0 && Total(WithMessage(q, header, data)) == size + |header| + |data|
    ensures QueueOk(WithMessage(q, header, data), offset, size + |header| + |data|)
  {
    assert Look(0);
  }

  /** The socket takes `n` bytes of the first item. */
  lemma StreamSend(net: Network, sent: seq<Byte>, q: seq<seq<Byte>>, offset: nat, n: nat, pushed: seq<Message>)
    requires q != [] && offset + n <= |q[0]| && StreamOk(net, sent, q, offset, pushed)
    ensures StreamOk(net, sent + q[0][offset..offset + n], q, offset + n, pushed)
    ensures offset + n == |q[0]| ==> StreamOk(net, sent + q[0][offset..offset + n], q[1..], 0, pushed)
  {
    assert Look(0);
    var all, piece := Flat(q), q[0][offset..offset + n];
    assert all[offset..] == piece + all[offset + n..];
    assert sent + (piece + all[offset + n..]) == (sent + piece) + all[offset + n..];
    assert offset + n == |q[0]| ==> all[offset + n..] == Flat(q[1..])[0..];
  }

  lemma QueueSend(q: seq<seq<Byte>>, offset: nat, size: nat, n: nat)
    requires q != [] && QueueOk(q, offset, size) && offset + n <= |q[0]|
    ensures offset + n < |q[0]| ==> QueueOk(q, offset + n, size)
    ensures offset + n == |q[0]| ==> size >= |q[0]| && QueueOk(q[1..], 0, size - |q[0]|)
  {
    assert Look(0);
  }

  class SendQueue {
    const net: Network
    const maxSize: nat
    var vSendMsg: seq<seq<Byte>>
    var sendOffset: nat
    var sendSize: nat
    var pauseSend: bool
    /** The messages pushed so far, and the bytes that the socket took. */
    ghost var pushed: seq<Message>
    ghost var sent: seq<Byte>

    /** The socket took a prefix of the stream of all messages, and the queue holds the rest; the counter is the
        number of bytes in the queue, and sending pauses exactly while it exceeds the limit. */
    ghost predicate Valid()
      reads this
    {
      net.Valid() && ValidFrom(vSendMsg)
    }

    /** `Valid`, for a queue `q` without the items that are sent but not yet removed. */
    ghost predicate ValidFrom(q: seq<seq<Byte>>)
      reads this
    {
      QueueOk(q, sendOffset, sendSize) && StreamOk(net, sent, q, sendOffset, pushed)
          && (pauseSend <==> sendSize > maxSize)
    }

    constructor (net: Network, maxSize: nat)
      requires net.Valid()
      ensures Valid() && pushed == [] && sent == [] && this.net == net && this.maxSize == maxSize
    {
      this.net, this.maxSize := net, maxSize;
      vSendMsg, sendOffset, sendSize, pauseSend := [], 0, 0, false;
      pushed, sent := [], [];
      new;
      assert Look(0);
    }

    /** Everything that the socket took belongs to the stream of the pushed messages; after the last byte is sent
        it is the whole stream. */
    lemma SentIsPrefix()
      requires Valid()
      ensures sent <= Wire(net, pushed)
      ensures vSendMsg == [] ==> sent == Wire(net, pushed)
    {
      assert Look(0);
    }

    /** The counter is the number of queued bytes, and sending pauses exactly while it exceeds the limit. */
    lemma CountersAreExact()
      requires Valid()
      ensures sendSize == Total(vSendMsg) && (pauseSend <==> Total(vSendMsg) > maxSize)
      ensures QueueForm(vSendMsg, sendOffset)
    {
      QueueTotal(vSendMsg, sendOffset, sendSize);
      QueueFacts(vSendMsg, sendOffset, sendSize);
    }

    /** `PushMessage`; `results` are the values that the socket returns if the message is sent at once. */
    method PushMessage(m: Message, results: seq<int>) returns (sentBytes: nat)
      requires Valid()
      modifies this
      ensures Valid() && pushed == old(pushed) + [m]
      ensures |sent| == |old(sent)| + sentBytes && old(sent) <= sent
      ensures sentBytes == if old(vSendMsg) != [] then 0
                           else Accepted(WithMessage([], HeaderOf(net, m), m.data), 0, results)
    {
      var optimistic := vSendMsg == [];
      CountersAreExact();
      var header := HeaderOf(net, m);
      QueueTotal(vSendMsg, sendOffset, sendSize);
      StreamPush(net, sent, vSendMsg, sendOffset, pushed, m);
      QueuePush(vSendMsg, sendOffset, sendSize, header, m.data);
      sendSize := sendSize + |m.data| + HEADER_SIZE;
      if sendSize > maxSize {
        pauseSend := true;
      }
      vSendMsg := WithMessage(vSendMsg, header, m.data);
      pushed := pushed + [m];
      sentBytes := 0;
      if optimistic {
        sentBytes := SocketSendData(results);
      }
    }

    /** `SocketSendData`: each call of the socket takes some bytes of the front item, or none; the queue may stop in
        the middle of an item.  No further result means that the socket is closed. */
    method SocketSendData(results: seq<int>) returns (sentBytes: nat)
      requires Valid()
      modifies this
      ensures Valid() && pushed == old(pushed)
      ensures |sent| == |old(sent)| + sentBytes && old(sent) <= sent
      ensures sentBytes == Accepted(old(vSendMsg), old(sendOffset), results)
    {
      sentBytes := 0;
      var it := 0;
      assert vSendMsg[0..] == vSendMsg && results[0..] == results;
      ghost var all := Accepted(vSendMsg, sendOffset, results);
      while it < |vSendMsg|
        invariant 0 <= it <= |vSendMsg| && pushed == old(pushed) && it <= |results|
        invariant ValidFrom(vSendMsg[it..]) && net.Valid()
        invariant sentBytes + Accepted(vSendMsg[it..], sendOffset, results[it..]) == all
        invariant |sent| == |old(sent)| + sentBytes && old(sent) <= sent
        decreases |vSendMsg| - it
      {
        if it >= |results| {
          break;
        }
        QueueFacts(vSendMsg[it..], sendOffset, sendSize);
        assert vSendMsg[it..][1..] == vSendMsg[it + 1..] && results[it..][1..] == results[it + 1..];
        var bytes := SendFront(it, results[it]);
        sentBytes := sentBytes + bytes;
        if bytes == 0 || sendOffset != 0 {
          QueueFacts(vSendMsg[it..], sendOffset, sendSize);
          break;
        }
        it := it + 1;
      }
      QueueFacts(vSendMsg[it..], sendOffset, sendSize);
      if it == |vSendMsg| {
        assert sendOffset == 0 && sendSize == 0;
      }
      vSendMsg := vSendMsg[it..];
    }

    /** One call of the socket with the rest of item `it`, which returns `result`. */
    method SendFront(it: nat, result: int) returns (bytes: nat)
      requires it < |vSendMsg| && ValidFrom(vSendMsg[it..])
      modifies this`sent, this`sendOffset, this`sendSize, this`pauseSend
      ensures bytes > 0 && sendOffset == 0 ==> ValidFrom(vSendMsg[it + 1..])
      ensures !(bytes > 0 && sendOffset == 0) ==> ValidFrom(vSendMsg[it..])
      ensures |sent| == |old(sent)| + bytes && old(sent) <= sent
      ensures bytes == if result <= 0 then 0 else if result < |vSendMsg[it]| - old(sendOffset) then result
                       else |vSendMsg[it]| - old(sendOffset)
      ensures sendOffset == if old(sendOffset) + bytes == |vSendMsg[it]| then 0 else old(sendOffset) + bytes
    {
      var data := vSendMsg[it];
      ghost var q := vSendMsg[it..];
      assert q[1..] == vSendMsg[it + 1..];
      QueueFacts(q, sendOffset, sendSize);
      assert |data| > sendOffset;
      bytes := if result > |data| - sendOffset then |data| - sendOffset else if result > 0 then result else 0;
      StreamSend(net, sent, q, sendOffset, bytes, pushed);
      QueueSend(q, sendOffset, sendSize, bytes);
      sent := sent + data[sendOffset..sendOffset + bytes];
      if sendOffset + bytes == |data| {
        sendOffset := 0;
        sendSize := sendSize - |data|;
        pauseSend := sendSize > maxSize;
        assert ValidFrom(q[1..]);
      } else {
        sendOffset := sendOffset + bytes;
        assert ValidFrom(q);
      }
    }
  }
}

/** Receiving (src/net.h, src/net.cpp: CNetMessage, ReceiveMsgBytes). */
module Receiving {
  import opened Hiding
  import opened Frames
  import opened Sending

  /** A message that is being received, as a value. */
  datatype Snapshot = Snapshot(inData: bool, hdrBuf: seq<Byte>, hdrPos: nat, size: nat, recv: seq<Byte>, dataPos: nat) {
    ghost predicate Valid() {
      && |hdrBuf| == HEADER_SIZE && dataPos <= |recv| <= dataPos + 256 * 1024
      && (!inData ==> hdrPos < HEADER_SIZE && recv == [])
      && (inData ==> hdrPos == HEADER_SIZE && size == SizeOf(hdrBuf) <= MAX_MESSAGE_LENGTH && |recv| <= size)
    }

    predicate Complete() { inData && size == dataPos }

    /** The bytes received so far. */
    ghost function Bytes(): seq<Byte>
      requires Valid()
    {
      if inData then hdrBuf + recv[..dataPos] else hdrBuf[..hdrPos]
    }
  }

  class NetMessage {
    var inData: bool
    var hdrBuf: seq<Byte>
    var hdrPos: nat
    var size: nat
    var recv: seq<Byte>
    var dataPos: nat

    ghost function View(): Snapshot
      reads this
    {
      Snapshot(inData, hdrBuf, hdrPos, size, recv, dataPos)
    }

    constructor ()
      ensures View().Valid() && !View().Complete() && View().Bytes() == []
    {
      inData, hdrPos, size, dataPos := false, 0, 0xFFFF_FFFF, 0;
      hdrBuf, recv := seq(HEADER_SIZE, _ => 0), [];
    }

    predicate Complete()
      reads this
      ensures Complete() == View().Complete()
    {
      inData && size == dataPos
    }

    /** `readHeader`: -1 if the header announces more than `MAX_SIZE` bytes. */
    method ReadHeader(chunk: seq<Byte>) returns (handled: int)
      requires View().Valid() && !inData && chunk != []
      modifies this
      ensures handled == -1 || 0 < handled <= |chunk|
      ensures handled >= 0 ==> handled == if |chunk| < HEADER_SIZE - old(hdrPos) then |chunk|
              else HEADER_SIZE - old(hdrPos)
      ensures handled >= 0 && !inData ==> View().Valid() && View().Bytes() == old(View().Bytes()) + chunk[..handled]
      ensures handled >= 0 && inData ==>
                |hdrBuf| == HEADER_SIZE == hdrPos && size == SizeOf(hdrBuf) && dataPos == 0 && recv == []
                && hdrBuf == old(View().Bytes()) + chunk[..handled]
      ensures handled == -1 ==>
                |chunk| >= HEADER_SIZE - old(hdrPos)
                && SizeOf(old(View().Bytes()) + chunk[..HEADER_SIZE - old(hdrPos)]) > 0x200_0000
      ensures handled >= 0 && inData ==> size <= 0x200_0000
    {
      var remaining := HEADER_SIZE - hdrPos;
      var n := if remaining < |chunk| then remaining else |chunk|;
      ghost var before := hdrBuf[..hdrPos];
      hdrBuf := hdrBuf[..hdrPos] + chunk[..n] + hdrBuf[hdrPos + n..];
      assert hdrBuf[..hdrPos + n] == before + chunk[..n];
      hdrPos := hdrPos + n;
      if hdrPos < HEADER_SIZE {
        return n;
      }
      assert hdrBuf[..HEADER_SIZE] == hdrBuf;
      size := SizeOf(hdrBuf);
      if size > MAX_SIZE {
        return -1;
      }
      inData := true;
      return n;
    }

    /** `readData`: the buffer grows up to 256 KiB ahead, but never beyond the size of the message. */
    method ReadData(chunk: seq<Byte>) returns (handled: nat)
      requires View().Valid() && inData && !Complete() && chunk != []
      modifies this
      ensures handled == if |chunk| < size - old(dataPos) then |chunk| else size - old(dataPos)
      ensures 0 < handled <= |chunk| && View().Valid() && inData && hdrBuf == old(hdrBuf)
      ensures View().Bytes() == old(View().Bytes()) + chunk[..handled]
    {
      var remaining := size - dataPos;
      var n := if remaining < |chunk| then remaining else |chunk|;
      ghost var before := recv[..dataPos];
      if |recv| < dataPos + n {
        var room := dataPos + n + 256 * 1024;
        recv := recv + seq((if size < room then size else room) - |recv|, _ => 0);
      }
      recv := recv[..dataPos] + chunk[..n] + recv[dataPos + n..];
      assert recv[..dataPos + n] == before + chunk[..n];
      dataPos := dataPos + n;
      assert hdrBuf + (before + chunk[..n]) == hdrBuf + before + chunk[..n];
      return n;
    }
  }

  // ----- the list of messages as values -----

  ghost function FrameIn(v: Snapshot): Frame { Frame(v.hdrBuf, v.recv) }

  ghost function FramesIn(vs: seq<Snapshot>): (fs: seq<Frame>)
    ensures |fs| == |vs|
  {
    seq(|vs|, i requires 0 <= i < |vs| => FrameIn(vs[i]))
  }

  /** The bytes of one message scan to its frame, or to nothing finished. */
  lemma ScanSnapshot(v: Snapshot)
    requires v.Valid()
    ensures Scan(v.Bytes()) == if v.Complete() then Good([FrameIn(v)], []) else Good([], v.Bytes())
  {
    var s := v.Bytes();
    if v.inData {
      assert s[..HEADER_SIZE] == v.hdrBuf;
      if v.Complete() {
        assert s[HEADER_SIZE..HEADER_SIZE + v.size] == v.recv && s[HEADER_SIZE + v.size..] == [];
        assert Scan([]) == Good([], []);
      }
    }
  }

  /** Finished messages `done`, and perhaps one more that has begun, are what the consumed bytes scan to. */
  ghost predicate Matches(done: seq<Snapshot>, begun: seq<Byte>, consumed: seq<Byte>) {
    Scan(consumed) == Good(FramesIn(done), begun)
  }

  lemma MatchesNext(done: seq<Snapshot>, begun: seq<Byte>, consumed: seq<Byte>, piece: seq<Byte>, v: Snapshot)
    requires Matches(done, begun, consumed) && v.Valid() && v.Bytes() == begun + piece
    ensures v.Complete() ==> Matches(done + [v], [], consumed + piece)
    ensures !v.Complete() ==> Matches(done, v.Bytes(), consumed + piece)
  {
    ScanAppend(consumed, piece);
    ScanSnapshot(v);
    assert FramesIn(done + [v]) == FramesIn(done) + [FrameIn(v)];
    assert FramesIn(done) + [] == FramesIn(done);
  }

  /** A header that announces too much spoils the stream, whatever follows. */
  lemma TooLarge(done: seq<Snapshot>, begun: seq<Byte>, consumed: seq<Byte>, more: seq<Byte>)
    requires Matches(done, begun, consumed) && |begun| < HEADER_SIZE <= |begun + more|
    requires SizeOf((begun + more)[..HEADER_SIZE]) > MAX_MESSAGE_LENGTH
    ensures Scan(consumed + more) == Bad
  {
    ScanAppend(consumed, more);
  }

  ghost predicate AllValid(vs: seq<Snapshot>) {
    && (forall i :: 0 <= i < |vs| ==> vs[i].Valid())
    && (forall i :: 0 <= i < |vs| - 1 ==> vs[i].Complete())
  }

  /** The number of finished messages. */
  ghost function Finished(vs: seq<Snapshot>): (n: nat)
    ensures n <= |vs| <= n + 1
  {
    if vs == [] || vs[|vs| - 1].Complete() then |vs| else |vs| - 1
  }

  /** The bytes of an unfinished message. */
  ghost function Begun(vs: seq<Snapshot>): seq<Byte>
    requires AllValid(vs)
  {
    if Finished(vs) == |vs| then [] else vs[|vs| - 1].Bytes()
  }

  /** The messages are what the consumed bytes scan to. */
  ghost predicate ScansTo(vs: seq<Snapshot>, consumed: seq<Byte>) {
    AllValid(vs) && Matches(vs[..Finished(vs)], Begun(vs), consumed) && (Finished(vs) < |vs| ==> Begun(vs) != [])
  }

  ghost predicate IsParsed(vs: seq<Snapshot>, consumed: seq<Byte>, ok: bool) {
    forall n :: Look(n) ==> ok == ScansTo(vs, consumed)
  }

  /** `ScansTo`, unfolded only on demand. */
  ghost predicate Parsed(vs: seq<Snapshot>, consumed: seq<Byte>) {
    assert IsParsed(vs, consumed, ScansTo(vs, consumed));
    var ok :| IsParsed(vs, consumed, ok);
    ok
  }

  lemma ParsedIs(vs: seq<Snapshot>, consumed: seq<Byte>)
    ensures Parsed(vs, consumed) <==> ScansTo(vs, consumed)
  {
    assert Look(0);
  }

  /** The last message is unfinished, and perhaps still blank. */
  ghost predicate ScansOpen(vs: seq<Snapshot>, consumed: seq<Byte>) {
    vs != [] && AllValid(vs) && !vs[|vs| - 1].Complete() && Matches(vs[..|vs| - 1], vs[|vs| - 1].Bytes(), consumed)
  }

  ghost predicate IsOpen(vs: seq<Snapshot>, consumed: seq<Byte>, ok: bool) {
    forall n :: Look(n) ==> ok == ScansOpen(vs, consumed)
  }

  /** `ScansOpen`, unfolded only on demand. */
  ghost predicate Open(vs: seq<Snapshot>, consumed: seq<Byte>) {
    assert IsOpen(vs, consumed, ScansOpen(vs, consumed));
    var ok :| IsOpen(vs, consumed, ok);
    ok
  }

  lemma OpenIs(vs: seq<Snapshot>, consumed: seq<Byte>)
    ensures Open(vs, consumed) <==> ScansOpen(vs, consumed)
  {
    assert Look(0);
  }

  lemma OpenFacts(vs: seq<Snapshot>, consumed: seq<Byte>)
    requires Open(vs, consumed)
    ensures vs != [] && vs[|vs| - 1].Valid() && !vs[|vs| - 1].Complete()
  {
    OpenIs(vs, consumed);
  }

  lemma OpenLast(vs: seq<Snapshot>, consumed: seq<Byte>)
    requires Parsed(vs, consumed) && vs != [] && !vs[|vs| - 1].Complete()
    ensures Open(vs, consumed)
  {
    ParsedIs(vs, consumed);
    OpenIs(vs, consumed);
  }

  lemma OpenTooLarge(vs: seq<Snapshot>, consumed: seq<Byte>, more: seq<Byte>)
    requires vs != [] && vs[|vs| - 1].Valid() && Open(vs, consumed)
    requires |vs[|vs| - 1].Bytes()| < HEADER_SIZE <= |vs[|vs| - 1].Bytes() + more|
    requires SizeOf((vs[|vs| - 1].Bytes() + more)[..HEADER_SIZE]) > MAX_MESSAGE_LENGTH
    ensures Scan(consumed + more) == Bad
  {
    OpenIs(vs, consumed);
    TooLarge(vs[..|vs| - 1], vs[|vs| - 1].Bytes(), consumed, more);
  }

  lemma OpenBlank(vs: seq<Snapshot>, consumed: seq<Byte>, blank: Snapshot)
    requires Parsed(vs, consumed) && Finished(vs) == |vs| && blank.Valid() && !blank.Complete() && blank.Bytes() == []
    ensures Open(vs + [blank], consumed)
  {
    ParsedIs(vs, consumed);
    OpenIs(vs + [blank], consumed);
    assert (vs + [blank])[..|vs|] == vs == vs[..|vs|];
  }

  lemma OpenNext(vs: seq<Snapshot>, consumed: seq<Byte>, piece: seq<Byte>, v: Snapshot)
    requires vs != [] && vs[|vs| - 1].Valid() && Open(vs, consumed) && v.Valid()
             && v.Bytes() == vs[|vs| - 1].Bytes() + piece
    requires piece != []
    ensures Parsed(vs[..|vs| - 1] + [v], consumed + piece)
    ensures FrameCount(consumed) == |vs| - 1 && FrameCount(consumed + piece) == if v.Complete() then |vs| else |vs| - 1
  {
    OpenIs(vs, consumed);
    ParsedIs(vs[..|vs| - 1] + [v], consumed + piece);
    var done := vs[..|vs| - 1];
    MatchesNext(done, vs[|vs| - 1].Bytes(), consumed, piece, v);
    assert (done + [v])[..|done|] == done && (done + [v])[..|vs|] == done + [v];
  }

  ghost function FrameCount(s: seq<Byte>): nat {
    match Scan(s)
    case Bad => 0
    case Good(frames, _) => |frames|
  }

  class Receiver {
    var vRecvMsg: seq<NetMessage>
    /** All bytes of the accepted chunks. */
    ghost var consumed: seq<Byte>

    ghost function Views(): (vs: seq<Snapshot>)
      reads this, vRecvMsg
      ensures |vs| == |vRecvMsg| && forall i :: 0 <= i < |vs| ==> vs[i] == vRecvMsg[i].View()
    {
      seq(|vRecvMsg|, i requires 0 <= i < |vRecvMsg| reads this, vRecvMsg => vRecvMsg[i].View())
    }

    ghost predicate Distinct()
      reads this
    {
      forall i, j :: 0 <= i < j < |vRecvMsg| ==> vRecvMsg[i] != vRecvMsg[j]
    }

    /** The messages are determined by the bytes alone, however they were cut into chunks. */
    ghost predicate Valid()
      reads this, vRecvMsg
    {
      Distinct() && Parsed(Views(), consumed)
    }

    constructor ()
      ensures Valid() && consumed == [] && vRecvMsg == []
    {
      vRecvMsg, consumed := [], [];
      new;
      assert FramesIn([]) == [];
      ParsedIs([], []);
    }

    /** The current message, or a new one. */
    method Current() returns (msg: NetMessage)
      requires Valid()
      modifies this`vRecvMsg
      ensures vRecvMsg != [] && msg == vRecvMsg[|vRecvMsg| - 1]
      ensures Distinct() && Open(Views(), consumed)
      ensures forall m :: m in vRecvMsg ==> m in old(vRecvMsg) || fresh(m)
    {
      if vRecvMsg == [] || vRecvMsg[|vRecvMsg| - 1].Complete() {
        msg := new NetMessage();
        ghost var vs := Views();
        OpenBlank(vs, consumed, msg.View());
        vRecvMsg := vRecvMsg + [msg];
        assert Views() == vs + [msg.View()];
      } else {
        msg := vRecvMsg[|vRecvMsg| - 1];
        OpenLast(Views(), consumed);
      }
    }

    /** The current message takes bytes off the chunk. */
    method Absorb(msg: NetMessage, chunk: seq<Byte>) returns (handled: int)
      requires vRecvMsg != [] && msg == vRecvMsg[|vRecvMsg| - 1]
      requires Distinct() && Open(Views(), consumed) && chunk != []
      modifies this`consumed, msg
      ensures handled == -1 ==> Scan(old(consumed) + chunk) == Bad
      ensures handled != -1 ==> 0 < handled <= |chunk| && Valid() && consumed == old(consumed) + chunk[..handled]
      ensures handled != -1 ==> FrameCount(consumed) == FrameCount(old(consumed)) + if msg.Complete() then 1 else 0
    {
      ghost var vs := Views();
      OpenFacts(vs, consumed);
      handled := ReadSome(msg, chunk);
      if handled < 0 {
        OpenTooLarge(vs, consumed, chunk);
        return;
      }
      OpenNext(vs, consumed, chunk[..handled], msg.View());
      consumed := consumed + chunk[..handled];
      assert Views() == vs[..|vs| - 1] + [msg.View()];
    }

    /** `ReceiveMsgBytes`: false if a header announces too much; `complete` tells whether a message was finished. */
    method ReceiveMsgBytes(chunk: seq<Byte>) returns (ok: bool, complete: bool)
      requires Valid()
      modifies this, vRecvMsg
      ensures ok <==> Scan(old(consumed) + chunk).Good?
      ensures ok ==> Valid() && consumed == old(consumed) + chunk
      ensures ok ==> (complete <==> FrameCount(consumed) > FrameCount(old(consumed)))
      ensures forall m :: m in vRecvMsg ==> m in old(vRecvMsg) || fresh(m)
    {
      complete := false;
      var pos := 0;
      assert chunk[..0] == [] && consumed + [] == consumed;
      while pos < |chunk|
        invariant 0 <= pos <= |chunk| && Valid() && consumed == old(consumed) + chunk[..pos]
        invariant FrameCount(consumed) >= FrameCount(old(consumed))
        invariant complete <==> FrameCount(consumed) > FrameCount(old(consumed))
        invariant forall m :: m in vRecvMsg ==> m in old(vRecvMsg) || fresh(m)
      {
        assert old(consumed) + chunk == consumed + chunk[pos..];
        var msg := Current();
        assert msg in vRecvMsg;
        var handled := Absorb(msg, chunk[pos..]);
        if handled < 0 {
          return false, complete;
        }
        assert chunk[..pos] + chunk[pos..][..handled] == chunk[..pos + handled];
        assert old(consumed) + chunk[..pos] + chunk[pos..][..handled] == old(consumed) + chunk[..pos + handled];
        pos := pos + handled;
        if msg.Complete() {
          complete := true;
        }
      }
      assert chunk[..pos] == chunk;
      ParsedIs(Views(), consumed);
      ok := true;
    }
  }

  // ----- main results -----

  /** A receiver that has consumed a part of the stream of some messages holds exactly the finished ones of them, in
      order; once it has consumed all, it holds all. */
  lemma ReceivedInOrder(net: Network, ms: seq<Message>, vs: seq<Snapshot>, consumed: seq<Byte>)
    requires net.Valid() && Sendable(ms) && Parsed(vs, consumed) && consumed <= Wire(net, ms)
    ensures Finished(vs) <= |ms| && forall i :: 0 <= i < Finished(vs) ==> FrameIn(vs[i]) == FrameOf(net, ms[i])
    ensures consumed == Wire(net, ms) ==> Finished(vs) == |vs| == |ms|
  {
    ParsedIs(vs, consumed);
    PartOfWire(net, ms, consumed);
    var n := Finished(vs);
    var done := vs[..n];
    assert FramesIn(done) <= FramesOf(net, ms);
    forall i | 0 <= i < n
      ensures FrameIn(vs[i]) == FrameOf(net, ms[i])
    {
      assert FramesIn(done)[i] == FramesOf(net, ms)[i];
    }
    if consumed == Wire(net, ms) {
      ScanWire(net, ms);
      assert Begun(vs) == [];
    }
  }

  /** Whatever part of the sent bytes arrives next, in chunks of any size, it is accepted, and the receiver holds the
      pushed messages whose bytes have arrived. */
  method Deliver(q: SendQueue, r: Receiver, chunk: seq<Byte>) returns (ok: bool)
    requires q.Valid() && r.Valid() && Sendable(q.pushed) && r.consumed + chunk <= q.sent
    modifies r, r.vRecvMsg
    ensures ok && r.Valid() && r.consumed == old(r.consumed) + chunk
    ensures Finished(r.Views()) <= |q.pushed|
    ensures forall i :: 0 <= i < Finished(r.Views()) ==> FrameIn(r.Views()[i]) == FrameOf(q.net, q.pushed[i])
    ensures r.consumed == q.sent && q.vSendMsg == [] ==> Finished(r.Views()) == |q.pushed|
  {
    q.SentIsPrefix();
    PartOfWire(q.net, q.pushed, r.consumed + chunk);
    var complete;
    ok, complete := r.ReceiveMsgBytes(chunk);
    ReceivedInOrder(q.net, q.pushed, r.Views(), r.consumed);
  }

  /** Header or data bytes for one message; -1 if its header announces too much. */
  method ReadSome(msg: NetMessage, chunk: seq<Byte>) returns (handled: int)
    requires msg.View().Valid() && !msg.View().Complete() && chunk != []
    modifies msg
    ensures handled != -1 ==>
              0 < handled <= |chunk| && msg.View().Valid()
                  && msg.View().Bytes() == old(msg.View().Bytes()) + chunk[..handled]
    ensures handled == -1 ==>
              var s := old(msg.View().Bytes()) + chunk;
              |old(msg.View().Bytes())| < HEADER_SIZE <= |s| && SizeOf(s[..HEADER_SIZE]) > MAX_MESSAGE_LENGTH
  {
    ghost var begun := msg.View().Bytes();
    if !msg.inData {
      handled := msg.ReadHeader(chunk);
      assert |begun| + |chunk| >= HEADER_SIZE
             ==> (begun + chunk)[..HEADER_SIZE] == begun + chunk[..HEADER_SIZE - |begun|];
      if handled < 0 {
        return;
      }
      if msg.inData && msg.size > MAX_MESSAGE_LENGTH {
        return -1;
      }
      assert msg.inData ==> msg.hdrBuf + msg.recv[..msg.dataPos] == msg.hdrBuf;
    } else {
      handled := msg.ReadData(chunk);
    }
  }
}
