/** Requests and answers by number: what the device makes of each frame of the host, and a reset from
    the host's request to the ATR it hands out. */
module SerialCalls {
  import opened Bytes
  import opened Checksum
  import opened SerialFrame
  import opened SerialReceive
  import Firmware
  import opened HostDriver
  import opened SerialLink

  // ---- frames ----

  /** The frame with this type in its three upper bits. */
  function FrameOf(kind: nat, payload: seq<byte>): seq<byte>
    requires kind < 8 && |payload| <= 14
  {
    var b := [32 * kind + |payload| + 1] + payload;
    b + [Crc8Of(b)]
  }

  lemma FrameIsMessage(kind: nat, payload: seq<byte>)
    requires kind < 8 && |payload| <= 14
    ensures FrameOf(kind, payload) == Message(32 * kind, payload)
  {
  }

  /** The device when it has taken all that came, and what it sent. */
  function Served(dev: Firmware.State, bytes: seq<byte>, atr: seq<byte>): (Firmware.State, seq<byte>)
    requires |atr| <= 255
    decreases |bytes|
  {
    match Receive(Items(bytes))
    case Waiting => (dev, [])
    case Received(r, rest) =>
      var (next, out) := Firmware.React(dev, r, atr);
      var (end, more) := Served(next, Suffix(bytes, |rest|), atr);
      (end, out + more)
  }

  lemma NothingServed(dev: Firmware.State, atr: seq<byte>)
    requires |atr| <= 255
    ensures Served(dev, [], atr) == (dev, [])
  {
    NothingToReceive();
  }

  /** The first frame, and then the rest. */
  lemma ServedFirst(dev: Firmware.State, r: Request, more: seq<byte>, atr: seq<byte>)
    requires |atr| <= 255 && Legal(r)
    ensures var (next, out) := Firmware.React(dev, r, atr); var (end, later) := Served(next, more, atr);
      Served(dev, Message(MaskOf(r.reqType), r.payload) + more, atr) == (end, out + later)
  {
    hide Message, Receive, Firmware.React;
    var f := Message(MaskOf(r.reqType), r.payload);
    RequestRoundTrip(r, Items(more));
    ItemsConcat(f, more);
    assert Suffix(f + more, |more|) == more;
  }

  /** The device in `loop()`, with `pending` bytes announced that have not come. */
  function Looping(present: bool, pending: nat): Firmware.State {
    Firmware.State(present, pending, Firmware.InLoop)
  }

  /** How it refuses a request: it notifies the host, drops what is pending, and waits for a resync. */
  function Refusing(present: bool): (Firmware.State, seq<byte>) {
    (Firmware.State(present, 0, Firmware.InResync(false)), FrameOf(7, []))
  }

  // ---- what the device answers ----

  /** Card status, type 1: without payload a query, with payload 0 the card is taken out, with any
      other it is reset. Answers: 2 present, 1 absent. */
  lemma CardStatusServed(present: bool, pending: nat, payload: seq<byte>, atr: seq<byte>)
    requires |payload| <= 1 && |atr| <= 255
    ensures Served(Looping(present, pending), FrameOf(1, payload), atr) ==
      if payload == [] then (Looping(present, pending), FrameOf(if present then 2 else 1, []))
      else if payload[0] == 0 then (Looping(false, pending), FrameOf(1, []))
      else (Looping(true, pending), Firmware.ResetFrames(atr))
  {
    hide Served, Message, FrameOf, Firmware.ResetFrames;
    Serves(Looping(present, pending), 1, Request(CardStatus, payload), atr);
    FrameIsMessage(2, []);
    FrameIsMessage(1, []);
  }

  lemma Serves(dev: Firmware.State, kind: nat, r: Request, atr: seq<byte>)
    requires |atr| <= 255 && Legal(r) && kind < 8 && MaskOf(r.reqType) == 32 * kind
    ensures Served(dev, FrameOf(kind, r.payload), atr) == Firmware.React(dev, r, atr)
  {
    hide Message, FrameOf, Firmware.React;
    FrameIsMessage(kind, r.payload);
    ServedFirst(dev, r, [], atr);
    var f := FrameOf(kind, r.payload);
    assert f + [] == f;
    var (next, out) := Firmware.React(dev, r, atr);
    NothingServed(next, atr);
    assert out + [] == out;
  }

  /** A request whose branch fails. */
  lemma Refused(present: bool, pending: nat, r: Request, atr: seq<byte>)
    requires |atr| <= 255 && Legal(r)
    requires Firmware.LoopReact(Looping(present, pending), r, atr) == (false, Looping(present, pending), [])
    ensures Firmware.React(Looping(present, pending), r, atr) == Refusing(present)
  {
    hide Message, FrameOf, Firmware.LoopReact;
    FrameIsMessage(7, []);
    var none: seq<byte> := [];
    assert none + Message(ANS_RESYNC, []) == Message(ANS_RESYNC, []);
  }

  /** Data to the card, type 2: the first request announces in two bytes, the low one first, how many
      will come, and nothing else may; while some are pending, each is accepted. */
  lemma SendServed(present: bool, pending: nat, payload: seq<byte>, atr: seq<byte>)
    requires 1 <= |payload| <= 14 && |atr| <= 255
    ensures Served(Looping(present, pending), FrameOf(2, payload), atr) ==
      if pending > 0 then (Looping(present, pending), FrameOf(6, []))
      else if |payload| == 2 then
        var low: int, high: int := payload[0], payload[1];
        (Looping(present, low + 256 * high), FrameOf(6, []))
      else Refusing(present)
  {
    hide Served, Message, FrameOf;
    Serves(Looping(present, pending), 2, Request(CardSend, payload), atr);
    FrameIsMessage(6, []);
    if pending == 0 && |payload| != 2 {
      Refused(present, pending, Request(CardSend, payload), atr);
    }
  }

  /** Type 3 carries out what was sent, unless more was announced; 4 asks for data, and there are none
      yet; 5 says they were read. */
  lemma OthersServed(present: bool, pending: nat, payload: seq<byte>, atr: seq<byte>)
    requires 1 <= |payload| <= 14 && |atr| <= 255
    ensures var dev := Looping(present, pending);
      && Served(dev, FrameOf(3, []), atr) == (if pending > 0 then Refusing(present) else (dev, FrameOf(6, [])))
      && Served(dev, FrameOf(4, payload), atr) == (dev, FrameOf(5, []))
      && Served(dev, FrameOf(5, []), atr) == (dev, FrameOf(6, []))
  {
    hide Served, Message, FrameOf;
    var dev := Looping(present, pending);
    Serves(dev, 3, Request(CardCommit, []), atr);
    Serves(dev, 4, Request(CardRead, payload), atr);
    Serves(dev, 5, Request(CardReadComplete, []), atr);
    FrameIsMessage(5, []);
    FrameIsMessage(6, []);
    if pending > 0 {
      Refused(present, pending, Request(CardCommit, []), atr);
    }
  }

  /** Types 6 and 7 belong to the resync and are refused outside it; inside, 7 is echoed and 6 after it
      ends it with Ok. */
  lemma ResyncServed(present: bool, pending: nat, echoed: bool, payload: seq<byte>, atr: seq<byte>)
    requires |payload| <= 14 && |atr| <= 255
    ensures var inside := Firmware.State(present, 0, Firmware.InResync(echoed));
      && Served(Looping(present, pending), FrameOf(6, payload), atr) == Refusing(present)
      && Served(Looping(present, pending), FrameOf(7, payload), atr) == Refusing(present)
      && Served(inside, FrameOf(7, payload), atr)
         == (Firmware.State(present, 0, Firmware.InResync(true)), FrameOf(7, payload))
      && Served(inside, FrameOf(6, payload), atr)
         == (if echoed then (Looping(present, 0), FrameOf(6, [])) else Refusing(present))
  {
    hide Served, Message, FrameOf;
    var dev, inside := Looping(present, pending), Firmware.State(present, 0, Firmware.InResync(echoed));
    Serves(dev, 6, Request(ResyncComplete, payload), atr);
    Serves(dev, 7, Request(Resync, payload), atr);
    Serves(inside, 6, Request(ResyncComplete, payload), atr);
    Serves(inside, 7, Request(Resync, payload), atr);
    FrameIsMessage(6, []);
    FrameIsMessage(7, []);
    FrameIsMessage(7, payload);
    Refused(present, pending, Request(ResyncComplete, payload), atr);
    Refused(present, pending, Request(Resync, payload), atr);
  }

  /** In `resync()` every other request, and a header that begins none, is answered with an empty 7, and
      a 7 must come again; in `loop()` such a header is refused. */
  lemma OthersInResync(present: bool, pending: nat, echoed: bool, r: Request, kind: nat, header: byte, atr: seq<byte>)
    requires |atr| <= 255 && Legal(r) && 1 <= kind <= 5 && MaskOf(r.reqType) == 32 * kind && header < 32
    ensures var inside := Firmware.State(present, 0, Firmware.InResync(echoed));
      && Served(inside, FrameOf(kind, r.payload), atr) == Refusing(present)
      && Served(inside, [header], atr) == Refusing(present)
      && Served(Looping(present, pending), [header], atr) == Refusing(present)
  {
    hide Served, Message, FrameOf;
    var inside := Firmware.State(present, 0, Firmware.InResync(echoed));
    Serves(inside, kind, r, atr);
    FrameIsMessage(7, []);
    NoRequest(header);
    ServedUnfolds(inside, [header], atr);
    ServedUnfolds(Looping(present, pending), [header], atr);
    assert Suffix([header], 0) == [];
    NothingServed(Refusing(present).0, atr);
    var none: seq<byte> := [];
    var notice := Message(ANS_RESYNC, []);
    assert none + notice == notice && notice + none == notice;
  }

  lemma NoRequest(header: byte)
    requires header < 32
    ensures Receive(Items([header])) == Received(INVALID, [])
  {
    assert Items([header]) == [Byte(header)];
    assert SkipPauses(Items([header])) == [Byte(header)];
  }

  // ---- a reset, end to end ----

  /** The host's request makes the device send what the host then hands out: exactly the card's ATR.
      Nothing else is sent or left over, and the card is in. */
  lemma ResetArrives(present: bool, pending: nat, atr: seq<byte>, challenges: nat -> Challenges)
    requires |atr| <= 255 && EachChallenging(challenges)
    ensures var (dev, out) := Served(Looping(present, pending), FrameOf(1, [1]), atr);
      && dev == Looping(true, pending)
      && ResetRun(Items(out), [], challenges, 0) == ResetEnd(Delivered(atr), FrameOf(1, [1]), [], [])
  {
    hide Served, Message, FrameOf, Firmware.ResetFrames, ReadAtr, HostRun;
    CardStatusServed(present, pending, [1], atr);
    FrameIsMessage(1, [1]);
    var out := Firmware.ResetFrames(atr);
    AtrArrives(atr, []);
    assert Items(out) + [] == Items(out);
  }

  /** A row of card status requests. */
  function StatusFrames(payloads: seq<seq<byte>>): seq<byte>
    requires forall p | p in payloads :: |p| <= 1
  {
    if payloads == [] then [] else FrameOf(1, payloads[0]) + StatusFrames(payloads[1..])
  }

  /** Whether the card is in after them: as the last that was not a query said. */
  function LastSaid(present: bool, payloads: seq<seq<byte>>): bool {
    if payloads == [] then present
    else
      var p := payloads[|payloads| - 1];
      if p == [] then LastSaid(present, payloads[..|payloads| - 1]) else p[0] != 0
  }

  /** Over any row of queries, resets and deactivations the device keeps in mind what the last of them
      but for queries did, and so a query that follows is answered. */
  lemma {:induction false} StatusRemembered(present: bool, pending: nat, payloads: seq<seq<byte>>, atr: seq<byte>)
    requires |atr| <= 255 && forall p | p in payloads :: |p| <= 1
    ensures Served(Looping(present, pending), StatusFrames(payloads), atr).0
      == Looping(LastSaid(present, payloads), pending)
    decreases |payloads|
  {
    hide FrameOf, Message;
    if payloads == [] {
      NothingServed(Looping(present, pending), atr);
    } else {
      var p := payloads[0];
      var now := if p == [] then present else p[0] != 0;
      CardStatusServed(present, pending, p, atr);
      FrameIsMessage(1, p);
      Serves(Looping(present, pending), 1, Request(CardStatus, p), atr);
      ServedFirst(Looping(present, pending), Request(CardStatus, p), StatusFrames(payloads[1..]), atr);
      StatusRemembered(now, pending, payloads[1..], atr);
      LastSaidFirst(present, payloads);
    }
  }

  lemma {:induction false} LastSaidFirst(present: bool, payloads: seq<seq<byte>>)
    requires payloads != []
    ensures var p := payloads[0];
      LastSaid(present, payloads) == LastSaid(if p == [] then present else p[0] != 0, payloads[1..])
    decreases |payloads|
  {
    var front := payloads[..|payloads| - 1];
    if front != [] {
      LastSaidFirst(present, front);
      assert front[1..] == payloads[1..][..|payloads| - 2] && payloads[1..][|payloads| - 2] == payloads[|payloads| - 1];
    } else {
      assert payloads[1..] == [];
    }
  }

  // ---- the firmware as written ----

  /** What is left after a request is the end of the bytes. */
  lemma RestOfBytes(bytes: seq<byte>)
    requires Receive(Items(bytes)).Received?
    ensures var rest := Receive(Items(bytes)).rest; |rest| < |bytes| && rest == Items(Suffix(bytes, |rest|))
  {
    hide Crc8Of, TakeBytes, RequestSize;
    var items := Items(bytes);
    assert SkipPauses(items) == items && items[0] == Byte(bytes[0]);
    var later := bytes[1..];
    assert items[1..] == Items(later);
    TakenIsSuffix(later, RequestSize(bytes[0]));
    var rest := Receive(items).rest;
    assert rest == Items(later) || rest == TakeBytes(Items(later), RequestSize(bytes[0])).1;
    assert |rest| <= |later| && rest == Items(Suffix(later, |rest|)) && Suffix(later, |rest|) == Suffix(bytes, |rest|);
  }

  lemma TakenIsSuffix(bytes: seq<byte>, n: nat)
    ensures var rest := TakeBytes(Items(bytes), n).1; |rest| <= |bytes| && rest == Items(Suffix(bytes, |rest|))
  {
    TakenItems(Items(bytes), n);
    var (body, rest) := TakeBytes(Items(bytes), n);
    assert rest == Items(bytes)[|body|..] == Items(bytes[|body|..]);
  }

  lemma ServedUnfolds(dev: Firmware.State, bytes: seq<byte>, atr: seq<byte>)
    requires |atr| <= 255
    ensures Receive(Items(bytes)).Waiting? ==> bytes == [] && Served(dev, bytes, atr) == (dev, [])
    ensures Receive(Items(bytes)).Received? ==>
      var x := Receive(Items(bytes));
      var (next, out) := Firmware.React(dev, x.request, atr);
      |x.rest| < |bytes| && x.rest == Items(Suffix(bytes, |x.rest|))
      && var (end, more) := Served(next, Suffix(bytes, |x.rest|), atr);
         Served(dev, bytes, atr) == (end, out + more)
  {
    hide Receive, Firmware.React;
    if Receive(Items(bytes)).Received? {
      RestOfBytes(bytes);
    } else {
      WaitsAtTheEnd(bytes);
    }
  }

  /** What serving comes to once `resync()` has ended as `e`, or has used up its input. */
  ghost predicate ServedAs(x: (Firmware.State, seq<byte>), e: Firmware.ResyncEnd, present: bool, bytes: seq<byte>,
                           atr: seq<byte>)
    requires |atr| <= 255
  {
    if e.completed then
      && |e.rest| <= |bytes| && e.rest == Items(Suffix(bytes, |e.rest|))
      && var (end, more) := Served(Looping(present, 0), Suffix(bytes, |e.rest|), atr);
         x == (end, e.out + more)
    else x.1 == e.out && x.0.place.InResync? && x.0.present == present && x.0.writePending == 0 && e.rest == []
  }

  /** One more request before that. */
  lemma ServedLater(x: (Firmware.State, seq<byte>), e: Firmware.ResyncEnd, r: Request, reply: seq<byte>,
                    present: bool, b: seq<byte>, bytes: seq<byte>, atr: seq<byte>)
    requires |atr| <= 255 && ServedAs(x, e, present, b, atr) && |b| <= |bytes| && b == Suffix(bytes, |b|)
    ensures ServedAs((x.0, reply + x.1), Firmware.ResyncEnd(e.completed, [r] + e.requests, reply + e.out, e.rest),
                     present, bytes, atr)
  {
    hide Served;
    if e.completed {
      assert Suffix(b, |e.rest|) == Suffix(bytes, |e.rest|);
      var more := Served(Looping(present, 0), Suffix(b, |e.rest|), atr).1;
      assert reply + (e.out + more) == reply + e.out + more;
    }
  }

  /** `resync()` serves what comes until it returns. */
  lemma {:induction false} ResyncServes(present: bool, echoed: bool, bytes: seq<byte>, atr: seq<byte>)
    requires |atr| <= 255
    ensures ServedAs(Served(Firmware.State(present, 0, Firmware.InResync(echoed)), bytes, atr),
                     Firmware.ResyncRun(Items(bytes), echoed), present, bytes, atr)
    decreases |bytes|
  {
    hide Message, Receive, Served, Firmware.ResyncRun, Firmware.ResyncReply;
    var dev := Firmware.State(present, 0, Firmware.InResync(echoed));
    Firmware.ResyncRunUnfolds(Items(bytes), echoed);
    ServedUnfolds(dev, bytes, atr);
    if Receive(Items(bytes)).Received? {
      var Received(r, rest) := Receive(Items(bytes));
      var place := Firmware.NextPlace(echoed, r.reqType);
      var b := Suffix(bytes, |rest|);
      if place.InResync? {
        ResyncServes(present, place.echoed, b, atr);
        ServedLater(Served(Firmware.State(present, 0, place), b, atr), Firmware.ResyncRun(rest, place.echoed), r,
                    Firmware.ResyncReply(echoed, r), present, b, bytes, atr);
      }
    }
  }

  /** What is left when `loop()` returns. */
  ghost function LeftBy(e: Firmware.ResyncEnd, bytes: seq<byte>): seq<byte> {
    if e.completed then Suffix(bytes, |e.rest|) else []
  }

  /** One pass of `loop()`. */
  lemma LoopServes(present: bool, pending: nat, bytes: seq<byte>, atr: seq<byte>)
    requires |atr| <= 255 && Receive(Items(bytes)).Received?
    ensures var x := Receive(Items(bytes));
      var dev := Looping(present, pending);
      var (ok, t, out) := Firmware.LoopReact(dev, x.request, atr);
      var next := Suffix(bytes, |x.rest|);
      && |x.rest| < |bytes| && x.rest == Items(next)
      && if ok then
           var (end, more) := Served(t, next, atr); Served(dev, bytes, atr) == (end, out + more)
         else
           var e := Firmware.ResyncRun(x.rest, false);
           && |LeftBy(e, next)| <= |next| && e.rest == Items(LeftBy(e, next))
           && var (end, more) := Served(Looping(t.present, 0), LeftBy(e, next), atr);
              && Served(dev, bytes, atr).1 == (out + Message(ANS_RESYNC, [])) + e.out + more
              && Served(dev, bytes, atr).0.present == end.present
              && Served(dev, bytes, atr).0.writePending == end.writePending
  {
    hide Message, Receive, Served, Firmware.ResyncRun, Firmware.LoopReact;
    var dev := Looping(present, pending);
    ServedUnfolds(dev, bytes, atr);
    var Received(r, rest) := Receive(Items(bytes));
    var next := Suffix(bytes, |rest|);
    var (ok, t, out) := Firmware.LoopReact(dev, r, atr);
    if !ok {
      ResyncServes(t.present, false, next, atr);
      NothingServed(Looping(t.present, 0), atr);
      var e := Firmware.ResyncRun(rest, false);
      var more := Served(Looping(t.present, 0), LeftBy(e, next), atr).1;
      OutputLater(out + Message(ANS_RESYNC, []), e.out, more);
      assert e.out + [] == e.out;
    }
  }

  lemma OutputLater(a: seq<byte>, b: seq<byte>, c: seq<byte>)
    ensures a + b + c == a + (b + c)
  {
  }

  lemma WaitsAtTheEnd(bytes: seq<byte>)
    requires Receive(Items(bytes)).Waiting?
    ensures bytes == []
  {
  }

  /** `loop()` over and over, until it waits: the device serves what came. */
  method Serve(device: Firmware.Device, bytes: seq<byte>)
    requires |device.atr| <= 255 && device.port.input == Items(bytes)
    modifies device, device.port
    ensures var (dev, out) := Served(Looping(old(device.present), old(device.writePending)), bytes, device.atr);
      && device.output == old(device.output) + out && device.port.input == []
      && device.present == dev.present && device.writePending == dev.writePending
  {
    hide Message, Receive, Served, Firmware.LoopReact, Firmware.ResyncRun;
    ghost var left, all := bytes, Served(Looping(device.present, device.writePending), bytes, device.atr);
    var waiting := false;
    while !waiting
      invariant device.port.input == Items(left)
      invariant waiting ==> left == []
      invariant var (dev, out) := Served(Looping(device.present, device.writePending), left, device.atr);
        && device.output + out == old(device.output) + all.1
        && dev.present == all.0.present && dev.writePending == all.0.writePending
      decreases |left|, !waiting
    {
      ghost var present, pending, output := device.present, device.writePending, device.output;
      ServedUnfolds(Looping(present, pending), left, device.atr);
      waiting := device.Loop();
      if !waiting {
        LoopServes(present, pending, left, device.atr);
        ghost var Received(r, rest) := Receive(Items(left));
        ghost var next := Suffix(left, |rest|);
        ghost var (ok, t, out) := Firmware.LoopReact(Looping(present, pending), r, device.atr);
        StillLooping(Looping(present, pending), r, device.atr);
        ghost var e := Firmware.ResyncRun(rest, false);
        left := if ok then next else LeftBy(e, next);
        ghost var more := Served(Looping(device.present, device.writePending), left, device.atr).1;
        ghost var first := out + Message(ANS_RESYNC, []);
        if ok {
          OutputLater(output, out, more);
        } else {
          OutputLater(output, first + e.out, more);
          OutputLater(output, first, e.out);
        }
      }
    }
    NothingServed(Looping(device.present, device.writePending), device.atr);
    assert device.output + [] == device.output;
  }

  lemma StillLooping(dev: Firmware.State, r: Request, atr: seq<byte>)
    requires |atr| <= 255 && (r.reqType == Invalid || Legal(r))
    ensures Firmware.LoopReact(dev, r, atr).1.place == dev.place
  {
    hide Message, Firmware.ResetFrames;
  }
}
