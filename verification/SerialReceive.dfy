/** Receiving a frame: `CommHelper::ReceiveRequest` on the device and `comm_recv_message` on
    the host, each as a function of what the line delivers and as the loop that computes it. */
module SerialReceive {
  import opened Bytes
  import opened Checksum
  import opened SerialFrame

  /** The end of a serial line: what is still to be read. */
  class Port {
    var input: seq<Item>

    constructor (input: seq<Item>)
      ensures this.input == input
    {
      this.input := input;
    }

    /** `readBytes`: up to `n` bytes, fewer if the line pauses first. */
    method ReadBytes(n: nat) returns (bytes: seq<byte>)
      modifies this
      ensures (bytes, input) == TakeBytes(old(input), n)
    {
      bytes := [];
      ghost var start := input;
      while |bytes| < n && input != [] && input[0].Byte?
        invariant |bytes| <= n
        invariant TakeBytes(start, n).0 == bytes + TakeBytes(input, n - |bytes|).0
        invariant TakeBytes(start, n).1 == TakeBytes(input, n - |bytes|).1
      {
        assert bytes + ([input[0].b] + TakeBytes(input[1..], n - |bytes| - 1).0)
            == bytes + [input[0].b] + TakeBytes(input[1..], n - |bytes| - 1).0;
        bytes := bytes + [input[0].b];
        input := input[1..];
      }
      assert bytes + [] == bytes;
    }

    /** `comm_recv`. */
    method CommRecvBytes(n: nat) returns (bytes: seq<byte>)
      modifies this
      ensures (bytes, input) == CommRecv(old(input), n)
    {
      hide CommRecv, Fails;
      bytes := [];
      ghost var fails, all := Fails(input, n), CommRecv(input, n);
      while |bytes| < n
        invariant |bytes| <= n
        invariant fails == Fails(input, n - |bytes|)
        invariant all.1 == CommRecv(input, n - |bytes|).1
        invariant all.0 == if fails then [] else bytes + CommRecv(input, n - |bytes|).0
      {
        CommRecvUnfolds(input, n - |bytes|);
        assert bytes + [] == bytes;
        if input == [] {
          return;
        }
        var item := input[0];
        input := input[1..];
        if item.Pause? {
          return;
        }
        if item.Broken? {
          return [];
        }
        assert bytes + ([item.b] + CommRecv(input, n - |bytes| - 1).0) ==
          bytes + [item.b] + CommRecv(input, n - |bytes| - 1).0;
        bytes := bytes + [item.b];
      }
      CommRecvUnfolds(input, 0);
      assert bytes + [] == bytes;
    }
  }

  lemma CommRecvUnfolds(items: seq<Item>, n: nat)
    ensures n == 0 || items == [] ==> CommRecv(items, n) == ([], items) && !Fails(items, n)
    ensures n > 0 && items != [] ==>
      match items[0]
      case Pause => CommRecv(items, n) == ([], items[1..]) && !Fails(items, n)
      case Broken => CommRecv(items, n) == ([], items[1..]) && Fails(items, n)
      case Byte(b) =>
        && Fails(items, n) == Fails(items[1..], n - 1) && CommRecv(items, n).1 == CommRecv(items[1..], n - 1).1
        && CommRecv(items, n).0 == if Fails(items, n) then [] else [b] + CommRecv(items[1..], n - 1).0
  {
  }

  function TakeBytes(items: seq<Item>, n: nat): (r: (seq<byte>, seq<Item>))
    ensures |r.0| <= n && |r.0| + |r.1| == |items|
    decreases n
  {
    if n == 0 || items == [] || !items[0].Byte? then ([], items)
    else
      var (bytes, rest) := TakeBytes(items[1..], n - 1);
      ([items[0].b] + bytes, rest)
  }

  lemma {:induction false} TakeAll(bytes: seq<byte>, rest: seq<Item>)
    ensures TakeBytes(Items(bytes) + rest, |bytes|) == (bytes, rest)
  {
    var items := Items(bytes) + rest;
    if bytes == [] {
      assert items == rest;
    } else {
      TakeAll(bytes[1..], rest);
      assert items[1..] == Items(bytes[1..]) + rest;
      assert [bytes[0]] + bytes[1..] == bytes;
    }
  }

  // ---- requests, on the device ----

  datatype ReqType =
    | Invalid | CardStatus | CardSend | CardCommit | CardRead | CardReadComplete | ResyncComplete | Resync

  function ReqOf(mask: byte): ReqType {
    match mask
    case 0x20 => CardStatus
    case 0x40 => CardSend
    case 0x60 => CardCommit
    case 0x80 => CardRead
    case 0xA0 => CardReadComplete
    case 0xC0 => ResyncComplete
    case 0xE0 => Resync
    case _ => Invalid
  }

  function MaskOf(t: ReqType): (mask: byte)
    ensures mask % 32 == 0
  {
    match t
    case CardStatus => REQ_CARD_STATUS
    case CardSend => REQ_CARD_SEND
    case CardCommit => REQ_CARD_COMMIT
    case CardRead => REQ_CARD_READ
    case CardReadComplete => REQ_CARD_READ_COMPLETE
    case ResyncComplete => REQ_RESYNC_COMPLETE
    case Resync => REQ_RESYNC
    case Invalid => 0
  }

  datatype Request = Request(reqType: ReqType, payload: seq<byte>)

  /** The payload sizes each request may have. */
  predicate Legal(r: Request) {
    && |r.payload| <= MAX_PAYLOAD
    && match r.reqType
       case CardCommit => r.payload == []
       case CardReadComplete => r.payload == []
       case CardStatus => |r.payload| <= 1
       case CardSend => r.payload != []
       case CardRead => r.payload != []
       case Resync => true
       case ResyncComplete => true
       case Invalid => false
  }

  /** The header check of `ReceiveRequest`: the remaining size, or 0 if the header is no good. */
  function RequestSize(header: byte): (n: nat)
    ensures n <= MAX_REMAINING
  {
    var n := Remaining(header);
    if n < 1 || n > MAX_REMAINING then 0
    else
      match TypeBits(header)
      case 0x60 => if n > 1 then 0 else n
      case 0xA0 => if n > 1 then 0 else n
      case 0x20 => if n > 2 then 0 else n
      case 0x40 => if n == 1 then 0 else n
      case 0x80 => if n == 1 then 0 else n
      case 0xC0 => n
      case 0xE0 => n
      case _ => 0
  }

  function SkipPauses(items: seq<Item>): (r: seq<Item>)
    ensures |r| <= |items| && (r != [] ==> r[0].Byte?)
  {
    if items == [] || items[0].Byte? then items else SkipPauses(items[1..])
  }

  /** The device waits for a header for ever; then it has a request, good or not. */
  datatype Reception = Waiting | Received(request: Request, rest: seq<Item>)

  const INVALID: Request := Request(Invalid, [])

  function Receive(items: seq<Item>): (r: Reception)
    ensures r.Received? ==> |r.rest| < |items| && |r.request.payload| <= MAX_PAYLOAD
    ensures r.Received? && r.request.reqType != Invalid ==> Legal(r.request)
  {
    var s := SkipPauses(items);
    if s == [] then Waiting
    else
      var header := s[0].b;
      var n := RequestSize(header);
      if n == 0 then Received(INVALID, s[1..])
      else
        var (body, rest) := TakeBytes(s[1..], n);
        if |body| < n || body[n - 1] != Crc8Of([header] + body[..n - 1]) then Received(INVALID, rest)
        else Received(Request(ReqOf(TypeBits(header)), body[..n - 1]), rest)
  }

  /** `CommHelper::ReceiveRequest`. */
  method ReceiveRequest(port: Port) returns (waiting: bool, request: Request)
    modifies port
    ensures match Receive(old(port.input))
      case Waiting => waiting && port.input == []
      case Received(r, rest) => !waiting && request == r && port.input == rest
  {
    hide Crc8Of;
    ghost var items := port.input;
    while port.input != [] && !port.input[0].Byte?
      invariant SkipPauses(port.input) == SkipPauses(items)
    {
      port.input := port.input[1..];
    }
    if port.input == [] {
      return true, INVALID;
    }
    var header := port.input[0].b;
    port.input := port.input[1..];
    var n := RequestSize(header);
    if n == 0 {
      return false, INVALID;
    }
    var body := port.ReadBytes(n);
    if |body| < n {
      return false, INVALID;
    }
    var buffer := [header] + body;
    var testSz := n;
    var crc := Crc8(buffer, testSz);
    assert buffer[..testSz] == [header] + body[..n - 1];
    if buffer[testSz] != crc {
      return false, INVALID;
    }
    return false, Request(ReqOf(TypeBits(header)), body[..n - 1]);
  }

  /** The frame of a request. */
  function Frame(r: Request): seq<byte>
    requires Legal(r)
  {
    Message(MaskOf(r.reqType), r.payload)
  }

  /** A legal request is decoded to itself, whatever follows it. */
  lemma RequestRoundTrip(r: Request, rest: seq<Item>)
    requires Legal(r)
    ensures Receive(Items(Frame(r)) + rest) == Received(r, rest)
  {
    hide Crc8Of, Message;
    var m := Frame(r);
    MessageVerifies(MaskOf(r.reqType), r.payload);
    var items := Items(m) + rest;
    var n := |r.payload| + 1;
    assert RequestSize(m[0]) == n && ReqOf(TypeBits(m[0])) == r.reqType;
    assert items[1..] == Items(m[1..]) + rest;
    TakeAll(m[1..], rest);
    assert m[1..][..n - 1] == r.payload;
  }

  /** A header and body that pass every check are the frame of their request. */
  lemma FrameOfParts(header: byte, body: seq<byte>)
    requires RequestSize(header) == |body| > 0 && body[|body| - 1] == Crc8Of([header] + body[..|body| - 1])
    ensures var r := Request(ReqOf(TypeBits(header)), body[..|body| - 1]);
      Legal(r) && Frame(r) == [header] + body
  {
    hide Crc8Of;
    HeaderParts(header);
    assert body == body[..|body| - 1] + [body[|body| - 1]];
  }

  /** Nothing else is decoded: a request that is not Invalid was read from exactly its frame. */
  lemma RequestSound(items: seq<Item>)
    requires Receive(items).Received? && Receive(items).request.reqType != Invalid
    ensures var Received(r, rest) := Receive(items);
      SkipPauses(items) == Items(Frame(r)) + rest
  {
    hide Crc8Of, ReqOf, Frame, Legal, RequestSize, TypeBits;
    var s := SkipPauses(items);
    var n := RequestSize(s[0].b);
    TakenItems(s[1..], n);
    var (body, rest) := TakeBytes(s[1..], n);
    FrameOfParts(s[0].b, body);
    assert s == [s[0]] + s[1..];
    ItemsConcat([s[0].b], body);
  }

  /** A good header is its type and the remaining size. */
  lemma HeaderParts(header: byte)
    requires RequestSize(header) > 0
    ensures TypeBits(header) + RequestSize(header) == header && MaskOf(ReqOf(TypeBits(header))) == TypeBits(header)
  {
  }

  lemma {:induction false} TakenItems(items: seq<Item>, n: nat)
    ensures var (bytes, rest) := TakeBytes(items, n);
      items == Items(bytes) + rest
  {
    if n == 0 || items == [] || !items[0].Byte? {
    } else {
      TakenItems(items[1..], n - 1);
      var (bytes, rest) := TakeBytes(items[1..], n - 1);
      assert items == [items[0]] + items[1..];
      assert Items([items[0].b] + bytes) == [items[0]] + Items(bytes);
    }
  }

  /** All requests decoded from an input until the device waits. */
  function ReceiveAll(items: seq<Item>): seq<Request>
    decreases |items|
  {
    match Receive(items)
    case Waiting => []
    case Received(r, rest) => [r] + ReceiveAll(rest)
  }

  /** Any row of legal requests, sent back to back, is decoded to the same requests. */
  lemma {:induction false} RequestsRoundTrip(rs: seq<Request>)
    requires forall r | r in rs :: Legal(r)
    ensures ReceiveAll(Items(Concat(seq(|rs|, i requires 0 <= i < |rs| => Frame(rs[i]))))) == rs
  {
    hide Frame, Receive;
    var frames := seq(|rs|, i requires 0 <= i < |rs| => Frame(rs[i]));
    if rs == [] {
      NothingToReceive();
    } else {
      var tail := rs[1..];
      var tailFrames := seq(|tail|, i requires 0 <= i < |tail| => Frame(tail[i]));
      assert frames[1..] == tailFrames;
      RequestsRoundTrip(tail);
      ItemsConcat(frames[0], Concat(tailFrames));
      RequestRoundTrip(rs[0], Items(Concat(tailFrames)));
    }
  }

  lemma NothingToReceive()
    ensures Receive([]) == Waiting && Items(Concat<byte>([])) == []
  {
  }

  // ---- answers, on the host ----

  /** One `comm_recv`: up to `n` bytes until the line pauses, or nothing after a failing read. */
  function CommRecv(items: seq<Item>, n: nat): (r: (seq<byte>, seq<Item>))
    ensures |r.0| <= n && |r.1| <= |items| && (Fails(items, n) ==> r.0 == [])
    decreases n
  {
    if n == 0 || items == [] then ([], items)
    else if !items[0].Byte? then ([], items[1..])
    else if Fails(items[1..], n - 1) then ([], CommRecv(items[1..], n - 1).1)
    else
      var (bytes, rest) := CommRecv(items[1..], n - 1);
      ([items[0].b] + bytes, rest)
  }

  /** Whether reading `n` bytes runs into a failing read before a pause. */
  predicate Fails(items: seq<Item>, n: nat) {
    n > 0 && items != [] && (items[0].Broken? || (items[0].Byte? && Fails(items[1..], n - 1)))
  }

  /** The body loop of `comm_recv_message`: goes on as long as something comes. */
  function Gather(items: seq<Item>, n: nat): (r: (seq<byte>, seq<Item>))
    ensures |r.0| <= n && |r.1| <= |items|
    decreases n
  {
    var (got, rest) := CommRecv(items, n);
    if got == [] then ([], rest)
    else
      var (more, last) := Gather(rest, n - |got|);
      (got + more, last)
  }

  /** `comm_header_decode`: the remaining size, or 0 if the header is no good. */
  function AnswerSize(header: byte): (n: nat)
    ensures n <= MAX_REMAINING
  {
    var n := Remaining(header);
    if n < 1 || n > MAX_REMAINING then 0
    else
      match TypeBits(header)
      case 0x20 => if n > 1 then 0 else n
      case 0xA0 => if n > 1 then 0 else n
      case 0xC0 => if n > 1 then 0 else n
      case 0x80 => if n == 1 then 0 else n
      case 0x40 => n
      case 0xE0 => n
      case _ => 0
  }

  /** The payload sizes each answer may have. */
  predicate LegalAnswer(mask: byte, payload: seq<byte>) {
    && |payload| <= MAX_PAYLOAD
    && match mask
       case 0x20 => payload == []
       case 0xA0 => payload == []
       case 0xC0 => payload == []
       case 0x80 => payload != []
       case 0x40 => true
       case 0xE0 => true
       case _ => false
  }

  datatype Answer = NoAnswer(rest: seq<Item>) | Answered(msg: seq<byte>, rest: seq<Item>)

  function RecvMessage(items: seq<Item>): (r: Answer)
    ensures r.Answered? ==> |r.msg| >= 2 && |r.rest| < |items|
  {
    var (head, rest) := CommRecv(items, 1);
    if head == [] then NoAnswer(rest)
    else
      var n := AnswerSize(head[0]);
      if n == 0 then NoAnswer(rest)
      else
        var (body, last) := Gather(rest, n);
        if |body| == n && CommVerify(head + body) then Answered(head + body, last) else NoAnswer(last)
  }

  /** The body loop of `comm_recv_message`. */
  method GatherBody(port: Port, size: nat) returns (body: seq<byte>)
    modifies port
    ensures (body, port.input) == Gather(old(port.input), size)
  {
    hide CommRecv;
    ghost var start := port.input;
    body := [];
    while |body| < size
      invariant |body| <= size
      invariant Gather(start, size).0 == body + Gather(port.input, size - |body|).0
      invariant Gather(start, size).1 == Gather(port.input, size - |body|).1
    {
      var got := port.CommRecvBytes(size - |body|);
      if got == [] {
        assert body + [] == body;
        return;
      }
      ghost var more := Gather(port.input, size - |body| - |got|).0;
      assert body + (got + more) == body + got + more;
      body := body + got;
    }
    GatherNothing(port.input);
    assert body + [] == body;
  }

  lemma GatherNothing(items: seq<Item>)
    ensures Gather(items, 0) == ([], items)
  {
  }

  /** `comm_recv_message`. */
  method CommRecvMessage(port: Port) returns (ok: bool, msg: seq<byte>)
    modifies port
    ensures match RecvMessage(old(port.input))
      case NoAnswer(rest) => !ok && msg == [] && port.input == rest
      case Answered(m, rest) => ok && msg == m && port.input == rest
  {
    hide Crc8Of, AnswerSize, CommRecv, Gather;
    var head := port.CommRecvBytes(1);
    if head == [] {
      return false, [];
    }
    var size := AnswerSize(head[0]);
    if size == 0 {
      return false, [];
    }
    var body := GatherBody(port, size);
    if |body| < size {
      return false, [];
    }
    var m := head + body;
    var crc := Crc8(m, |m| - 1);
    if m[|m| - 1] != crc {
      return false, [];
    }
    return true, m;
  }

  lemma {:induction false} RecvAll(bytes: seq<byte>, rest: seq<Item>)
    ensures !Fails(Items(bytes) + rest, |bytes|) && CommRecv(Items(bytes) + rest, |bytes|) == (bytes, rest)
  {
    var items := Items(bytes) + rest;
    if bytes == [] {
      assert items == rest;
    } else {
      RecvAll(bytes[1..], rest);
      assert items[1..] == Items(bytes[1..]) + rest;
      assert [bytes[0]] + bytes[1..] == bytes;
    }
  }

  lemma GatherAll(bytes: seq<byte>, rest: seq<Item>)
    ensures Gather(Items(bytes) + rest, |bytes|) == (bytes, rest)
  {
    RecvAll(bytes, rest);
    assert bytes + [] == bytes;
    if bytes != [] {
      assert Gather(rest, 0) == ([], rest);
    }
  }

  /** A legal answer is accepted unchanged, whatever follows it. */
  lemma AnswerRoundTrip(mask: byte, payload: seq<byte>, rest: seq<Item>)
    requires mask % 32 == 0 && LegalAnswer(mask, payload)
    ensures RecvMessage(Items(Message(mask, payload)) + rest) == Answered(Message(mask, payload), rest)
  {
    hide Crc8Of, Message, CommVerify;
    var m := Message(mask, payload);
    MessageVerifies(mask, payload);
    var items := Items(m) + rest;
    assert items[1..] == Items(m[1..]) + rest;
    assert [m[0]] + m[1..] == m;
    RecvAll(m[..1], Items(m[1..]) + rest);
    assert items == Items(m[..1]) + (Items(m[1..]) + rest);
    GatherAll(m[1..], rest);
  }

  // ---- what of the line a message is made of ----

  /** `rest` is what is left of `items` after its beginning was read. */
  predicate Follows(items: seq<Item>, rest: seq<Item>) {
    |rest| <= |items| && items[|items| - |rest|..] == rest
  }

  /** The part of `items` read before `rest`. */
  function ReadOff(items: seq<Item>, rest: seq<Item>): seq<Item>
    requires |rest| <= |items|
  {
    items[..|items| - |rest|]
  }

  /** The bytes of a part of the line, without its pauses. */
  function BytesIn(items: seq<Item>): seq<byte> {
    if items == [] then []
    else (if items[0].Byte? then [items[0].b] else []) + BytesIn(items[1..])
  }

  lemma {:induction false} BytesInConcat(a: seq<Item>, b: seq<Item>)
    ensures BytesIn(a + b) == BytesIn(a) + BytesIn(b)
  {
    if a == [] {
      assert a + b == b;
    } else {
      assert (a + b)[1..] == a[1..] + b && (a + b)[0] == a[0];
      BytesInConcat(a[1..], b);
      var first := if a[0].Byte? then [a[0].b] else [];
      assert first + (BytesIn(a[1..]) + BytesIn(b)) == first + BytesIn(a[1..]) + BytesIn(b);
    }
  }

  lemma FollowsOn(a: seq<Item>, b: seq<Item>, c: seq<Item>)
    requires Follows(a, b) && Follows(b, c)
    ensures Follows(a, c) && ReadOff(a, c) == ReadOff(a, b) + ReadOff(b, c)
  {
    assert a == ReadOff(a, b) + b;
    assert b == ReadOff(b, c) + c;
  }

  lemma {:induction false} CommRecvReads(items: seq<Item>, n: nat)
    ensures var (bytes, rest) := CommRecv(items, n);
      Follows(items, rest) && (!Fails(items, n) ==> BytesIn(ReadOff(items, rest)) == bytes)
    decreases n
  {
    hide CommRecv, Fails, BytesIn;
    CommRecvUnfolds(items, n);
    var rest := CommRecv(items, n).1;
    if n == 0 || items == [] {
      assert ReadOff(items, rest) == [];
      NoBytes();
    } else {
      BytesOfOne(items[0]);
      if items[0].Byte? {
        CommRecvReads(items[1..], n - 1);
        assert ReadOff(items, rest) == [items[0]] + ReadOff(items[1..], rest);
        BytesInConcat([items[0]], ReadOff(items[1..], rest));
      } else {
        assert ReadOff(items, rest) == [items[0]];
      }
    }
  }

  lemma BytesOfOne(item: Item)
    ensures BytesIn([item]) == if item.Byte? then [item.b] else []
  {
  }

  lemma {:induction false} GatherReads(items: seq<Item>, n: nat)
    ensures var (bytes, rest) := Gather(items, n);
      Follows(items, rest) && (|bytes| == n ==> BytesIn(ReadOff(items, rest)) == bytes)
    decreases n
  {
    hide BytesIn, CommRecv, Fails;
    CommRecvReads(items, n);
    var (got, rest) := CommRecv(items, n);
    if got != [] {
      GatherReads(rest, n - |got|);
      var (more, last) := Gather(rest, n - |got|);
      FollowsOn(items, rest, last);
      BytesInConcat(ReadOff(items, rest), ReadOff(rest, last));
    } else if n == 0 {
      CommRecvUnfolds(items, 0);
      assert ReadOff(items, rest) == [];
      NoBytes();
    }
  }

  lemma NoBytes()
    ensures BytesIn([]) == []
  {
  }

  lemma RecvMessageReads(items: seq<Item>)
    ensures var r := RecvMessage(items);
      Follows(items, r.rest) && (r.Answered? ==> BytesIn(ReadOff(items, r.rest)) == r.msg)
  {
    hide BytesIn, CommRecv, Gather, CommVerify, AnswerSize;
    CommRecvReads(items, 1);
    var (head, rest) := CommRecv(items, 1);
    if head != [] {
      var n := AnswerSize(head[0]);
      GatherReads(rest, n);
      var (body, last) := Gather(rest, n);
      FollowsOn(items, rest, last);
      BytesInConcat(ReadOff(items, rest), ReadOff(rest, last));
    }
  }

  /** Whatever `comm_recv_message` accepts is a legal frame of the serial protocol, and it is exactly
      the bytes read off the line for it. */
  lemma AnswerSound(items: seq<Item>)
    requires RecvMessage(items).Answered?
    ensures var Answered(m, rest) := RecvMessage(items);
      var payload := m[1..|m| - 1];
      && LegalAnswer(TypeBits(m[0]), payload) && m == Message(TypeBits(m[0]), payload)
      && Follows(items, rest) && BytesIn(ReadOff(items, rest)) == m
  {
    hide Crc8Of, Gather, CommRecv;
    var m := RecvMessage(items).msg;
    var n := AnswerSize(m[0]);
    AnswerHeaderParts(m[0]);
    assert m == m[..|m| - 1] + [m[|m| - 1]];
    assert m[..|m| - 1] == [m[0]] + m[1..|m| - 1];
    RecvMessageReads(items);
  }

  lemma AnswerHeaderParts(header: byte)
    requires AnswerSize(header) > 0
    ensures TypeBits(header) + AnswerSize(header) == header
  {
  }

  datatype Reply = Reply(mask: byte, payload: seq<byte>)

  predicate LegalReply(r: Reply) {
    r.mask % 32 == 0 && LegalAnswer(r.mask, r.payload)
  }

  function ReplyFrame(r: Reply): seq<byte>
    requires LegalReply(r)
  {
    Message(r.mask, r.payload)
  }

  /** All messages accepted from an input until the first that is not. */
  function RecvAllMessages(items: seq<Item>): seq<seq<byte>>
    decreases |items|
  {
    var r := RecvMessage(items);
    if r.Answered? then [r.msg] + RecvAllMessages(r.rest) else []
  }

  /** Any row of legal answers, sent back to back, is accepted unchanged. */
  lemma {:induction false} AnswersRoundTrip(rs: seq<Reply>)
    requires forall r | r in rs :: LegalReply(r)
    ensures var frames := seq(|rs|, i requires 0 <= i < |rs| => ReplyFrame(rs[i]));
      RecvAllMessages(Items(Concat(frames))) == frames
  {
    hide RecvMessage, Message;
    var frames := seq(|rs|, i requires 0 <= i < |rs| => ReplyFrame(rs[i]));
    if rs == [] {
      NoMessages();
    } else {
      var tail := rs[1..];
      var tailFrames := seq(|tail|, i requires 0 <= i < |tail| => ReplyFrame(tail[i]));
      assert frames[1..] == tailFrames;
      assert rs[0] in rs && LegalReply(rs[0]);
      AnswersRoundTrip(tail);
      ItemsConcat(frames[0], Concat(tailFrames));
      AnswerRoundTrip(rs[0].mask, rs[0].payload, Items(Concat(tailFrames)));
    }
  }

  lemma NoMessages()
    ensures RecvAllMessages([]) == [] && Items(Concat<byte>([])) == []
  {
  }

  /** `CommHelper::SendAnswer`: the frame as it goes out, nothing for an oversize payload. */
  method SendAnswer(mask: byte, payload: seq<byte>) returns (sent: bool, out: seq<byte>)
    requires mask % 32 == 0
    ensures sent <==> |payload| <= MAX_PAYLOAD
    ensures out == if sent then Message(mask, payload) else []
  {
    hide Crc8Of;
    if |payload| > MAX_PAYLOAD {
      return false, [];
    }
    var buffer := [mask + |payload| + 1] + payload;
    var crc := Crc8(buffer, |buffer|);
    assert buffer[..|buffer|] == buffer;
    return true, buffer + [crc];
  }
}
