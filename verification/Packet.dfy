/** Packets over a byte stream (socket.c): headers, the send and receive buffers, partial writes
    and partial reads. */
module Packet {
  import opened Bytes
  import opened Buffer

  type uint32 = x: int | 0 <= x < 0x1_0000_0000
  type uint16 = x: int | 0 <= x < 0x1_0000
  type int16 = x: int | -0x8000 <= x < 0x8000

  const HEADER: nat := 12

  /** Whether the host is little-endian, and the socket's `use_network_byte_order`. */
  datatype Order = Order(littleHost: bool, network: bool)

  datatype Packet = Packet(xid: uint32, dest: uint32, error: int16, data: seq<byte>)

  // ---- headers in memory ----

  function Field16(v: uint16, big: bool): (b: seq<byte>)
    ensures |b| == 2
  {
    if big then [v / 256, v % 256] else [v % 256, v / 256]
  }

  function Value16(b: seq<byte>, big: bool): uint16
    requires |b| == 2
  {
    var x: int, y: int := b[0], b[1];
    if big then 256 * x + y else 256 * y + x
  }

  lemma Field16RoundTrip(v: uint16, big: bool)
    ensures Value16(Field16(v, big), big) == v
  {
  }

  function Field32(v: uint32, big: bool): (b: seq<byte>)
    ensures |b| == 4
  {
    if big then Field16(v / 0x1_0000, true) + Field16(v % 0x1_0000, true)
    else Field16(v % 0x1_0000, false) + Field16(v / 0x1_0000, false)
  }

  function Value32(b: seq<byte>, big: bool): uint32
    requires |b| == 4
  {
    var x: int, y: int := Value16(b[..2], big), Value16(b[2..], big);
    if big then 0x1_0000 * x + y else 0x1_0000 * y + x
  }

  lemma Field32RoundTrip(v: uint32, big: bool)
    ensures Value32(Field32(v, big), big) == v
  {
    hide Field16, Value16;
    var h, l := v / 0x1_0000, v % 0x1_0000;
    Field16RoundTrip(h, big);
    Field16RoundTrip(l, big);
    var b := Field32(v, big);
    assert b[..2] == (if big then Field16(h, big) else Field16(l, big));
    assert b[2..] == (if big then Field16(l, big) else Field16(h, big));
  }

  /** A signed 16-bit value in two's complement. */
  function Unsigned(e: int16): uint16 {
    if e < 0 then e + 0x1_0000 else e
  }

  function Signed(v: uint16): int16 {
    if v >= 0x8000 then v - 0x1_0000 else v
  }

  /** `error` and `count` are in network order on request, the ids always in the host's. */
  function BigFields(o: Order): bool {
    !o.littleHost || o.network
  }

  function HeaderBytes(o: Order, xid: uint32, dest: uint32, error: int16, count: uint16): (b: seq<byte>)
    ensures |b| == HEADER
  {
    Field32(xid, !o.littleHost) + Field32(dest, !o.littleHost)
    + Field16(Unsigned(error), BigFields(o)) + Field16(count, BigFields(o))
  }

  datatype Header = Header(xid: uint32, dest: uint32, error: int16, count: uint16)

  function ReadHeader(o: Order, b: seq<byte>): Header
    requires |b| >= HEADER
  {
    Header(Value32(b[..4], !o.littleHost), Value32(b[4..8], !o.littleHost),
           Signed(Value16(b[8..10], BigFields(o))), Value16(b[10..12], BigFields(o)))
  }

  lemma HeaderRoundTrip(o: Order, xid: uint32, dest: uint32, error: int16, count: uint16, rest: seq<byte>)
    ensures ReadHeader(o, HeaderBytes(o, xid, dest, error, count) + rest) == Header(xid, dest, error, count)
  {
    hide Field16, Field32, Value16, Value32;
    var native, big := !o.littleHost, BigFields(o);
    var b := HeaderBytes(o, xid, dest, error, count) + rest;
    assert b[..4] == Field32(xid, native) && b[4..8] == Field32(dest, native);
    assert b[8..10] == Field16(Unsigned(error), big) && b[10..12] == Field16(count, big);
    Field32RoundTrip(xid, native);
    Field32RoundTrip(dest, native);
    Field16RoundTrip(Unsigned(error), big);
    Field16RoundTrip(count, big);
  }

  /** The header's bytes in memory: two ids of four bytes, the error and the count of two. The ids are in
      the host's order; so are error and count, but in network order, high byte first, where that is
      asked for. */
  lemma HeaderLayout(o: Order, xid: uint32, dest: uint32, error: int16, count: uint16)
    ensures var b := HeaderBytes(o, xid, dest, error, count);
      var x, d, e := xid, dest, if error < 0 then error + 65536 else error;
      && (if o.littleHost
          then b[..4] == [x % 256, x / 256 % 256, x / 65536 % 256, x / 16777216]
               && b[4..8] == [d % 256, d / 256 % 256, d / 65536 % 256, d / 16777216]
          else b[..4] == [x / 16777216, x / 65536 % 256, x / 256 % 256, x % 256]
               && b[4..8] == [d / 16777216, d / 65536 % 256, d / 256 % 256, d % 256])
      && (if o.littleHost && !o.network then b[8..] == [e % 256, e / 256, count % 256, count / 256]
          else b[8..] == [e / 256, e % 256, count / 256, count % 256])
  {
    hide Field32;
    IdLayout(xid, !o.littleHost);
    IdLayout(dest, !o.littleHost);
  }

  lemma IdLayout(v: uint32, big: bool)
    ensures Field32(v, big) ==
      if big then [v / 16777216, v / 65536 % 256, v / 256 % 256, v % 256]
      else [v % 256, v / 256 % 256, v / 65536 % 256, v / 16777216]
  {
    var h, l := v / 0x1_0000, v % 0x1_0000;
    assert h / 256 == v / 16777216 && h % 256 == v / 65536 % 256;
    assert l / 256 == v / 256 % 256 && l % 256 == v % 256;
  }

  /** What `ct_socket_put_packet` writes; the count is cut to 16 bits. */
  function Frame(o: Order, p: Packet): (f: seq<byte>)
    ensures |f| == HEADER + |p.data| % 0x1_0000
  {
    var count := |p.data| % 0x1_0000;
    HeaderBytes(o, p.xid, p.dest, p.error, count) + p.data[..count]
  }

  // ---- the operations on the two buffers ----

  /** The send buffer and the bytes handed to the kernel, after a packet was put. */
  datatype Sender = Sender(sbuf: Queue, pipe: seq<byte>)

  function FlushAll(s: Sender): Sender {
    Sender(s.sbuf.(contents := [], gap := s.sbuf.gap + |s.sbuf.contents|), s.pipe + s.sbuf.contents)
  }

  /** `ct_socket_put_packet`: flush everything if the packet does not fit, fail if it never does. */
  function PutPacket(s: Sender, o: Order, p: Packet): (r: (Sender, bool))
    requires Fits(s.sbuf)
    ensures Fits(r.0.sbuf)
  {
    var count := HEADER + |p.data|;
    var t := if Tailroom(s.sbuf) < count then FlushAll(s).(sbuf := Compacted(FlushAll(s).sbuf)) else s;
    if Tailroom(t.sbuf) < count then (t, false)
    else (t.(sbuf := Put(t.sbuf, Frame(o, p)).0), true)
  }

  datatype Taken = Incomplete | Complete(packet: Packet) | TooLarge

  /** `ct_socket_get_packet` */
  function TakePacket(q: Queue, o: Order): (r: (Queue, Taken))
    requires Fits(q)
    ensures Fits(r.0)
  {
    if |q.contents| < HEADER then (q, Incomplete)
    else
      var h := ReadHeader(o, q.contents);
      if |q.contents| >= HEADER + h.count then
        (Get(q, HEADER + h.count).0,
         Complete(Packet(h.xid, h.dest, h.error, q.contents[HEADER..HEADER + h.count])))
      else if q.size < HEADER + h.count then (q, TooLarge)
      else (q, Incomplete)
  }

  /** A packet that fits behind what is in the buffer goes there, and nothing is written yet; otherwise
      all that was there is written first, and the packet stands alone, unless it never fits. */
  lemma PutDecides(s: Sender, o: Order, p: Packet)
    requires Fits(s.sbuf) && |p.data| < 65536
    ensures var (r, ok) := PutPacket(s, o, p);
      var n := 12 + |p.data|;
      && (ok <==> n <= s.sbuf.size)
      && if s.sbuf.gap + |s.sbuf.contents| + n <= s.sbuf.size
         then r.pipe == s.pipe && r.sbuf.contents == s.sbuf.contents + Frame(o, p)
         else r.pipe == s.pipe + s.sbuf.contents && r.sbuf.contents == if ok then Frame(o, p) else []
  {
    hide Frame;
    assert [] + Frame(o, p) == Frame(o, p);
  }

  /** A packet is taken exactly when all its bytes are there, and given up exactly when they are not and
      the buffer can never hold them. */
  lemma TakeDecides(q: Queue, o: Order, xid: uint32, dest: uint32, error: int16, count: uint16, rest: seq<byte>)
    requires Fits(q) && q.contents == HeaderBytes(o, xid, dest, error, count) + rest
    ensures var (r, t) := TakePacket(q, o);
      if |rest| >= count then t == Complete(Packet(xid, dest, error, rest[..count])) && r.contents == rest[count..]
      else r == q && t == if 12 + count > q.size then TooLarge else Incomplete
  {
    hide HeaderBytes, ReadHeader;
    HeaderRoundTrip(o, xid, dest, error, count, rest);
    var h := HeaderBytes(o, xid, dest, error, count);
    if |rest| >= count {
      assert (h + rest)[12..12 + count] == rest[..count] && (h + rest)[12 + count..] == rest[count..];
    }
  }

  // ---- the whole stream ----

  datatype Stream = Stream(sender: Sender, rbuf: Queue, received: seq<Packet>)

  /** A packet is put; `n` bytes are written; `n` bytes are read; a packet is taken. */
  datatype Action = Send(packet: Packet) | Flush(n: nat) | Fill(n: nat) | Take

  function FillRoom(q: Queue): nat
    requires Fits(q)
  {
    if Tailroom(q) == 0 then Tailroom(Compacted(q)) else Tailroom(q)
  }

  ghost predicate Valid(st: Stream) {
    Fits(st.sender.sbuf) && Fits(st.rbuf)
  }

  function Act(st: Stream, o: Order, a: Action): (r: Stream)
    requires Fits(st.sender.sbuf) && Fits(st.rbuf)
    ensures r.sender.sbuf.size == st.sender.sbuf.size && r.rbuf.size == st.rbuf.size
    ensures Fits(r.sender.sbuf) && Fits(r.rbuf)
  {
    var s := st.sender;
    match a
    case Send(p) => st.(sender := PutPacket(s, o, p).0)
    case Flush(n) =>
      var k := Min(n, |s.sbuf.contents|);
      st.(sender := Sender(Get(s.sbuf, k).0, s.pipe + s.sbuf.contents[..k]))
    case Fill(n) =>
      var k := Min(Min(n, FillRoom(st.rbuf)), |s.pipe|);
      var q := if Tailroom(st.rbuf) == 0 then Compacted(st.rbuf) else st.rbuf;
      st.(rbuf := Put(q, s.pipe[..k]).0, sender := s.(pipe := s.pipe[k..]))
    case Take =>
      var (q, t) := TakePacket(st.rbuf, o);
      st.(rbuf := q, received := if t.Complete? then st.received + [t.packet] else st.received)
  }

  function Run(st: Stream, o: Order, actions: seq<Action>): (r: Stream)
    requires Fits(st.sender.sbuf) && Fits(st.rbuf)
    ensures Fits(r.sender.sbuf) && Fits(r.rbuf)
    decreases |actions|
  {
    if actions == [] then st else Run(Act(st, o, actions[0]), o, actions[1..])
  }

  /** The packets a list of actions sends. */
  function SentBy(actions: seq<Action>): seq<Packet> {
    if actions == [] then []
    else (if actions[0].Send? then [actions[0].packet] else []) + SentBy(actions[1..])
  }

  function Encoded(o: Order, ps: seq<Packet>): seq<byte> {
    if ps == [] then [] else Frame(o, ps[0]) + Encoded(o, ps[1..])
  }

  lemma {:induction false} EncodedAppend(o: Order, ps: seq<Packet>, p: Packet)
    ensures Encoded(o, ps + [p]) == Encoded(o, ps) + Frame(o, p)
  {
    hide Frame;
    if ps == [] {
      assert [p][1..] == [];
    } else {
      EncodedAppend(o, ps[1..], p);
      assert (ps + [p])[1..] == ps[1..] + [p];
    }
  }

  /** A packet that fits both buffers; neither is larger than 65536 bytes. */
  predicate Sendable(st: Stream, p: Packet) {
    HEADER + |p.data| <= st.sender.sbuf.size && HEADER + |p.data| <= st.rbuf.size
    && st.sender.sbuf.size <= 0x1_0000 && st.rbuf.size <= 0x1_0000
  }

  /** The bytes under way are the packets not yet received. */
  ghost predicate Inv(st: Stream, o: Order, sent: seq<Packet>) {
    && Valid(st)
    && (forall i | 0 <= i < |sent| :: Sendable(st, sent[i]))
    && st.received <= sent
    && st.rbuf.contents + st.sender.pipe + st.sender.sbuf.contents == Encoded(o, sent[|st.received|..])
  }

  /** The receive buffer holds the start of the next packet: its header, once 12 bytes are there,
      is that packet's, and the whole packet once its bytes are. */
  lemma NextPacket(st: Stream, o: Order, sent: seq<Packet>)
    requires Inv(st, o, sent) && |st.rbuf.contents| >= HEADER
    ensures |st.received| < |sent|
    ensures var p := sent[|st.received|];
      var h := ReadHeader(o, st.rbuf.contents);
      && h == Header(p.xid, p.dest, p.error, |p.data|)
      && (|st.rbuf.contents| >= HEADER + |p.data| ==>
            st.rbuf.contents[HEADER..HEADER + |p.data|] == p.data
            && st.rbuf.contents[HEADER + |p.data|..] + st.sender.pipe + st.sender.sbuf.contents
               == Encoded(o, sent[|st.received| + 1..]))
  {
    hide ReadHeader, HeaderBytes;
    var rest := sent[|st.received|..];
    var under := Encoded(o, rest);
    var p := rest[0];
    var header := HeaderBytes(o, p.xid, p.dest, p.error, |p.data|);
    assert rest[1..] == sent[|st.received| + 1..];
    assert p.data[..|p.data|] == p.data;
    assert under == header + (p.data + Encoded(o, rest[1..]));
    var b := st.rbuf.contents;
    var later := st.sender.pipe + st.sender.sbuf.contents;
    assert under == b + later;
    FrontOf(b, later, header, p.data, Encoded(o, rest[1..]));
    HeaderRoundTrip(o, p.xid, p.dest, p.error, |p.data|, b[HEADER..]);
  }

  /** The front of a framed row, however it is cut. */
  lemma FrontOf(b: seq<byte>, later: seq<byte>, header: seq<byte>, data: seq<byte>, rest: seq<byte>)
    requires |b| >= |header| == HEADER && b + later == header + (data + rest)
    ensures b == header + b[HEADER..]
    ensures |b| >= HEADER + |data| ==>
      b[HEADER..HEADER + |data|] == data && b[HEADER + |data|..] + later == rest
  {
    var all := b + later;
    assert b[..HEADER] == all[..HEADER] == header;
    if |b| >= HEADER + |data| {
      var n := HEADER + |data|;
      assert b[HEADER..n] == all[HEADER..n] == data;
      assert b[n..] + later == all[n..] == rest;
    }
  }

  // ---- every action keeps the stream ----

  lemma TakeKeeps(st: Stream, o: Order, sent: seq<Packet>)
    requires Inv(st, o, sent)
    ensures Inv(Act(st, o, Take), o, sent)
    ensures TakePacket(st.rbuf, o).1 != TooLarge
    ensures TakePacket(st.rbuf, o).1.Incomplete? ==> FillRoom(st.rbuf) > 0 || sent == st.received
  {
    hide ReadHeader, Frame;
    if |st.rbuf.contents| >= HEADER {
      NextPacket(st, o, sent);
      var p := sent[|st.received|];
      assert Sendable(st, p);
      assert sent[..|st.received| + 1] == st.received + [p];
    } else if |st.received| < |sent| {
      assert Sendable(st, sent[|st.received|]);
    }
  }

  lemma SendKeeps(st: Stream, o: Order, sent: seq<Packet>, p: Packet)
    requires Inv(st, o, sent) && Sendable(st, p)
    ensures PutPacket(st.sender, o, p).1 && Inv(Act(st, o, Send(p)), o, sent + [p])
  {
    hide Frame, Encoded;
    var k := |st.received|;
    var s, t := st.sender, PutPacket(st.sender, o, p).0;
    assert (sent + [p])[k..] == sent[k..] + [p];
    EncodedAppend(o, sent[k..], p);
    assert |Frame(o, p)| == HEADER + |p.data|;
    assert st.rbuf.contents + t.pipe + t.sbuf.contents
        == st.rbuf.contents + s.pipe + s.sbuf.contents + Frame(o, p);
    forall i | 0 <= i < |sent| + 1
      ensures Sendable(Act(st, o, Send(p)), (sent + [p])[i])
    {
      assert i < |sent| ==> Sendable(st, sent[i]);
    }
  }

  lemma MoveKeeps(st: Stream, o: Order, sent: seq<Packet>, a: Action)
    requires Inv(st, o, sent) && (a.Flush? || a.Fill?)
    ensures Inv(Act(st, o, a), o, sent)
  {
    hide Encoded, Frame;
    var s := st.sender;
    var t := Act(st, o, a);
    match a {
      case Flush(n) =>
        var k := Min(n, |s.sbuf.contents|);
        assert s.sbuf.contents[..k] + s.sbuf.contents[k..] == s.sbuf.contents;
      case Fill(n) =>
        var k := Min(Min(n, FillRoom(st.rbuf)), |s.pipe|);
        assert s.pipe[..k] + s.pipe[k..] == s.pipe;
    }
    assert t.rbuf.contents + t.sender.pipe + t.sender.sbuf.contents
        == st.rbuf.contents + s.pipe + s.sbuf.contents;
    forall i | 0 <= i < |sent|
      ensures Sendable(t, sent[i])
    {
      assert Sendable(st, sent[i]);
    }
  }

  /** An empty connection. */
  function Fresh(sendSize: nat, receiveSize: nat): Stream {
    Stream(Sender(Queue([], 0, sendSize, false), []), Queue([], 0, receiveSize, false), [])
  }

  lemma {:induction false} RunKeeps(st: Stream, o: Order, sent: seq<Packet>, actions: seq<Action>)
    requires Inv(st, o, sent) && forall p | p in SentBy(actions) :: Sendable(st, p)
    ensures Inv(Run(st, o, actions), o, sent + SentBy(actions))
    decreases |actions|
  {
    hide Encoded, Frame, Act, TakePacket, PutPacket, FillRoom;
    if actions == [] {
      assert sent + [] == sent;
    } else {
      var a := actions[0];
      assert a.Send? ==> a.packet in SentBy(actions);
      var now := sent + (if a.Send? then [a.packet] else []);
      match a {
        case Send(p) => SendKeeps(st, o, sent, p);
        case Take => TakeKeeps(st, o, sent);
        case _ => MoveKeeps(st, o, sent, a);
      }
      var t := Act(st, o, a);
      assert !a.Send? ==> now == sent;
      forall p | p in SentBy(actions[1..])
        ensures Sendable(t, p)
      {
        assert p in SentBy(actions) && Sendable(st, p);
      }
      RunKeeps(t, o, now, actions[1..]);
      assert now + SentBy(actions[1..]) == sent + SentBy(actions);
    }
  }

  /** Round trip: for any packets that fit both buffers and any mixture of partial writes, partial
      reads and takes, what was received is always a prefix of what was sent; nothing is lost or
      too large; an incomplete packet leaves room for the next read; and when no byte is under way
      everything has been received. */
  lemma StreamRoundTrip(sendSize: nat, receiveSize: nat, o: Order, actions: seq<Action>)
    requires forall p | p in SentBy(actions) :: Sendable(Fresh(sendSize, receiveSize), p)
    ensures var st := Run(Fresh(sendSize, receiveSize), o, actions);
      && st.received <= SentBy(actions)
      && TakePacket(st.rbuf, o).1 != TooLarge
      && (TakePacket(st.rbuf, o).1.Incomplete? && st.received != SentBy(actions) ==> FillRoom(st.rbuf) > 0)
      && (st.rbuf.contents + st.sender.pipe + st.sender.sbuf.contents == [] <==> st.received == SentBy(actions))
  {
    hide Frame, TakePacket, FillRoom, Act;
    var st0 := Fresh(sendSize, receiveSize);
    RunKeeps(st0, o, [], actions);
    var st := Run(st0, o, actions);
    var sent := SentBy(actions);
    assert [] + sent == sent;
    TakeKeeps(st, o, sent);
    if |st.received| < |sent| {
      assert Encoded(o, sent[|st.received|..]) != [];
    }
  }

  /** Nothing is ever stuck: from any point, writing, reading and taking alone deliver all the rest. */
  lemma {:induction false} Drains(st: Stream, o: Order, sent: seq<Packet>) returns (actions: seq<Action>)
    requires Inv(st, o, sent)
    ensures SentBy(actions) == [] && Run(st, o, actions).received == sent
    decreases |sent| - |st.received|, |st.sender.sbuf.contents|, |st.sender.pipe|
  {
    hide Frame, ReadHeader;
    if st.received == sent {
      return [];
    }
    var a: Action;
    if TakePacket(st.rbuf, o).1.Complete? {
      a := Take;
    } else if st.sender.sbuf.contents != [] {
      a := Flush(|st.sender.sbuf.contents|);
    } else {
      a := Fill(1);
      SomethingToRead(st, o, sent);
    }
    TakeKeeps(st, o, sent);
    if a != Take {
      MoveKeeps(st, o, sent, a);
    }
    var rest := Drains(Act(st, o, a), o, sent);
    actions := [a] + rest;
    assert actions[1..] == rest;
  }

  /** If the next packet is incomplete although everything was written, bytes wait to be read, and fit. */
  lemma SomethingToRead(st: Stream, o: Order, sent: seq<Packet>)
    requires Inv(st, o, sent) && st.received != sent && st.sender.sbuf.contents == []
    requires !TakePacket(st.rbuf, o).1.Complete?
    ensures st.sender.pipe != [] && FillRoom(st.rbuf) > 0
  {
    hide Frame, ReadHeader;
    TakeKeeps(st, o, sent);
    var rest := sent[|st.received|..];
    assert Sendable(st, sent[|st.received|]);
    if st.sender.pipe == [] {
      assert st.rbuf.contents == Encoded(o, rest);
      assert |Encoded(o, rest)| >= |Frame(o, rest[0])| >= HEADER;
      NextPacket(st, o, sent);
    }
  }

  // ---- the socket object ----

  const IFD_ERROR_TIMEOUT: int := -2
  const IFD_ERROR_BUFFER_TOO_SMALL: int := -11
  const IFD_ERROR_NOT_CONNECTED: int := -103

  /** The kernel's side of a stream socket. `grants` says how far each write and read goes, a
      negative grant that it fails; once they are used up everything asked for is moved. `idle` says
      which waits for input end without any. */
  class Pipe {
    var bytes: seq<byte>
    var grants: seq<int>
    var idle: seq<bool>

    /** `poll` for input, repeated while a signal interrupts it. */
    method Poll() returns (ready: bool)
      modifies this`idle
      ensures ready == !(old(idle) != [] && old(idle)[0])
    {
      ready := true;
      if idle != [] {
        ready := !idle[0];
        idle := idle[1..];
      }
    }

    method Granted(most: nat) returns (n: int)
      requires most > 0
      modifies this`grants
      ensures n == -1 || 1 <= n <= most
    {
      if grants == [] {
        return most;
      }
      n := if grants[0] < 0 then -1 else if grants[0] == 0 then 1 else Min(grants[0], most);
      grants := grants[1..];
    }

    method Write(data: seq<byte>) returns (n: int)
      requires data != []
      modifies this
      ensures n == -1 || 1 <= n <= |data|
      ensures bytes == old(bytes) + if n == -1 then [] else data[..n]
    {
      n := Granted(|data|);
      if n >= 0 {
        bytes := bytes + data[..n];
      }
    }

    method Read(count: nat) returns (n: int, data: seq<byte>)
      requires count > 0
      modifies this
      ensures n == -1 || n == |data| <= count
      ensures n == -1 ==> data == []
      ensures data + bytes == old(bytes) && (n == 0 ==> bytes == [])
    {
      if bytes == [] {
        return 0, [];
      }
      n := Granted(Min(count, |bytes|));
      if n < 0 {
        return -1, [];
      }
      data := bytes[..n];
      bytes := bytes[n..];
    }
  }

  datatype Events = PollIn | PollOut

  class Socket {
    const sbuf: CtBuf
    const rbuf: CtBuf
    const pipe: Pipe
    const order: Order
    var events: Events
    var eof: bool

    ghost predicate Valid()
      reads this, sbuf, rbuf
    {
      sbuf != rbuf && sbuf.base != rbuf.base && sbuf.Valid() && rbuf.Valid()
    }

    constructor (sbuf: CtBuf, rbuf: CtBuf, pipe: Pipe, order: Order)
      requires sbuf != rbuf && sbuf.base != rbuf.base && sbuf.Valid() && rbuf.Valid()
      ensures Valid() && this.sbuf == sbuf && this.rbuf == rbuf && this.pipe == pipe && this.order == order && !eof
    {
      this.sbuf, this.rbuf, this.pipe, this.order := sbuf, rbuf, pipe, order;
      events, eof := PollIn, false;
    }

    /** One write from the head of the buffer. */
    method WriteSome() returns (ok: bool)
      requires Valid() && sbuf.View().contents != []
      modifies sbuf`head, pipe
      ensures Valid() && pipe.bytes + sbuf.View().contents == old(pipe.bytes + sbuf.View().contents)
      ensures old(pipe.bytes) <= pipe.bytes
      ensures if ok then |sbuf.View().contents| < |old(sbuf.View()).contents| else sbuf.View() == old(sbuf.View())
    {
      ghost var waiting := sbuf.View().contents;
      var w := pipe.Write(sbuf.base[sbuf.head..sbuf.tail]);
      if w < 0 {
        return false;
      }
      assert waiting[..w] + waiting[w..] == waiting;
      sbuf.head := sbuf.head + w;
      ok := true;
    }

    /** `ct_socket_flsbuf`: bytes only move from the buffer to the kernel, in order. */
    method FlushBuffer(all: bool) returns (rc: int)
      requires Valid()
      modifies this`events, sbuf`head, pipe
      ensures Valid() && (rc == 0 || rc == -103)
      ensures pipe.bytes + sbuf.View().contents == old(pipe.bytes + sbuf.View().contents)
      ensures old(pipe.bytes) <= pipe.bytes
      ensures rc == 0 && all ==> sbuf.View().contents == [] && events == PollIn
    {
      rc := 0;
      ghost var everything := pipe.bytes + sbuf.View().contents;
      var more := true;
      while more
        invariant Valid() && rc == 0
        invariant pipe.bytes + sbuf.View().contents == everything && old(pipe.bytes) <= pipe.bytes
        invariant !more ==> !all || (sbuf.View().contents == [] && events == PollIn)
        decreases more, |sbuf.View().contents|
      {
        var n := sbuf.Avail();
        if n == 0 {
          events := PollIn;
          more := false;
        } else {
          var ok := WriteSome();
          if !ok {
            return IFD_ERROR_NOT_CONNECTED;
          }
          more := all;
        }
      }
    }

    /** The packet is larger than the room behind the tail: flush and compact. */
    method MakeRoom(count: nat) returns (rc: int)
      requires Valid()
      modifies this`events, sbuf, sbuf.base, pipe
      ensures Valid() && sbuf.base == old(sbuf.base)
      ensures pipe.bytes + sbuf.View().contents == old(pipe.bytes + sbuf.View().contents)
      ensures rc == 0 ==> count <= Tailroom(sbuf.View())
      ensures rc == -11 ==> count > sbuf.base.Length
      ensures rc in {0, -11, -103}
    {
      rc := FlushBuffer(true);
      if rc < 0 {
        return;
      }
      sbuf.Compact();
      var room := sbuf.Room();
      if room < count {
        rc := IFD_ERROR_BUFFER_TOO_SMALL;
      }
    }

    /** The two puts of `ct_socket_put_packet`. */
    method PutFrame(p: Packet)
      requires Valid() && HEADER + |p.data| <= Tailroom(sbuf.View())
      modifies sbuf, sbuf.base
      ensures Valid() && sbuf.base == old(sbuf.base)
      ensures sbuf.View() == Put(old(sbuf.View()), Frame(order, p)).0
      ensures sbuf.View().contents == old(sbuf.View()).contents + Frame(order, p)
    {
      hide HeaderBytes;
      ghost var q := sbuf.View();
      var size := |p.data| % 0x1_0000;
      var put := sbuf.PutBytes(HeaderBytes(order, p.xid, p.dest, p.error, size));
      if size > 0 {
        put := sbuf.PutBytes(p.data[..size]);
      }
      assert sbuf.View().contents == q.contents + Frame(order, p);
    }

    /** `ct_socket_put_packet` */
    method SendPacket(p: Packet) returns (rc: int)
      requires Valid()
      modifies this`events, sbuf, sbuf.base, pipe
      ensures Valid() && sbuf.base == old(sbuf.base)
      ensures rc in {0, -11, -103}
      ensures pipe.bytes + sbuf.View().contents
           == old(pipe.bytes + sbuf.View().contents) + if rc == 0 then Frame(order, p) else []
      ensures rc == -11 ==> HEADER + |p.data| > sbuf.base.Length
      ensures old(Tailroom(sbuf.View())) >= HEADER + |p.data| ==> rc == 0 && pipe.bytes == old(pipe.bytes)
      ensures rc == 0 ==> events == PollOut
    {
      hide Frame, Put;
      var count := HEADER + |p.data|;
      var room := sbuf.Room();
      if room < count {
        rc := MakeRoom(count);
        if rc < 0 {
          return;
        }
      }
      ghost var before := sbuf.View().contents;
      PutFrame(p);
      assert pipe.bytes + (before + Frame(order, p)) == pipe.bytes + before + Frame(order, p);
      events := PollOut;
      rc := 0;
    }

    /** `ct_socket_get_packet` */
    method ReceivePacket() returns (rc: int, p: Packet)
      requires Valid()
      modifies rbuf
      ensures Valid() && rbuf.base == old(rbuf.base)
      ensures var (q, t) := TakePacket(old(rbuf.View()), order);
        rbuf.View() == q
        && match t
           case Incomplete => rc == 0
           case TooLarge => rc == -1
           case Complete(packet) => rc == 1 && p == packet
    {
      hide ReadHeader;
      p := Packet(0, 0, 0, []);
      var avail := rbuf.Avail();
      if avail < HEADER {
        return 0, p;
      }
      ghost var contents := rbuf.View().contents;
      var h := ReadHeader(order, rbuf.base[rbuf.head..rbuf.tail]);
      if avail >= HEADER + h.count {
        var got, bytes := rbuf.GetBytes(HEADER);
        got, bytes := rbuf.GetBytes(h.count);
        assert bytes == contents[HEADER..][..h.count] == contents[HEADER..HEADER + h.count];
        assert contents[HEADER..][h.count..] == contents[HEADER + h.count..];
        return 1, Packet(h.xid, h.dest, h.error, bytes);
      }
      if rbuf.base.Length < HEADER + h.count {
        return -1, p;
      }
      return 0, p;
    }

    /** `ct_socket_filbuf`: bytes only move from the kernel to the buffer, in order; none move when the
        wait for them times out. */
    method FillBuffer(timeout: int) returns (rc: int)
      requires Valid()
      modifies this`eof, rbuf, rbuf.base, pipe
      ensures Valid() && rbuf.base == old(rbuf.base)
      ensures rbuf.View().contents + pipe.bytes == old(rbuf.View().contents + pipe.bytes)
      ensures rc > 0 ==> |rbuf.View().contents| == |old(rbuf.View()).contents| + rc
      ensures rc <= 0 ==> rbuf.View().contents == old(rbuf.View()).contents
      ensures old(FillRoom(rbuf.View())) == 0 ==> rc == -1
      ensures rc == -2 <==>
        old(FillRoom(rbuf.View())) > 0 && timeout >= 0 && old(pipe.idle) != [] && old(pipe.idle)[0]
      ensures rc == 0 ==> eof && !old(eof)
    {
      var count := rbuf.Room();
      if count == 0 {
        rbuf.Compact();
        count := rbuf.Room();
        if count == 0 {
          return -1;
        }
      }
      if timeout >= 0 {
        var ready := pipe.Poll();
        if !ready {
          return IFD_ERROR_TIMEOUT;
        }
      }
      rc := ReadSome(count);
    }

    /** The read and what follows it. */
    method ReadSome(count: nat) returns (rc: int)
      requires Valid() && 0 < count <= Tailroom(rbuf.View())
      modifies this`eof, rbuf, rbuf.base, pipe
      ensures Valid() && rbuf.base == old(rbuf.base) && rc >= -1
      ensures rbuf.View().contents + pipe.bytes == old(rbuf.View().contents + pipe.bytes)
      ensures rc > 0 ==> |rbuf.View().contents| == |old(rbuf.View()).contents| + rc
      ensures rc <= 0 ==> rbuf.View().contents == old(rbuf.View()).contents
      ensures rc == 0 ==> eof && !old(eof)
    {
      var n, data := pipe.Read(count);
      if n < 0 {
        return -1;
      }
      if n == 0 {
        if eof {
          return -1;
        }
        eof := true;
        return 0;
      }
      var put := rbuf.PutBytes(data);
      rc := n;
    }
  }
}
