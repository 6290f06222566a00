/** Host and firmware together, over two reliable first-in-first-out queues. */
module SerialLink {
  import opened Bytes
  import opened SerialFrame
  import opened SerialReceive
  import Firmware
  import opened HostDriver

  // ---- the chunked ATR ----

  /** The parts the firmware sends are put together to exactly the ATR; the remaining count
      never goes below zero. */
  lemma {:induction false} PartsArrive(atr: seq<byte>, got: seq<byte>, rest: seq<Item>)
    requires |atr| <= 255
    ensures ReadParts(Items(Firmware.AtrParts(atr)) + rest, |atr|, got) == Complete(got + atr, rest)
    decreases |atr|
  {
    hide RecvMessage, Message;
    if atr == [] {
      assert Items(Firmware.AtrParts(atr)) + rest == rest && got + atr == got;
    } else {
      var n := Min(MAX_PAYLOAD, |atr|);
      var m := Message(ANS_CARD_PRESENT, atr[..n]);
      var later := Items(Firmware.AtrParts(atr[n..])) + rest;
      ItemsConcat(m, Firmware.AtrParts(atr[n..]));
      assert Items(Firmware.AtrParts(atr)) + rest == Items(m) + later;
      AnswerRoundTrip(ANS_CARD_PRESENT, atr[..n], later);
      MessageVerifies(ANS_CARD_PRESENT, atr[..n]);
      PartsArrive(atr[n..], got + atr[..n], rest);
      assert got + atr[..n] + atr[n..] == got + atr;
    }
  }

  /** For every ATR of up to 255 bytes, what `card_reset` sends is read back as that ATR. */
  lemma AtrArrives(atr: seq<byte>, rest: seq<Item>)
    requires |atr| <= 255
    ensures ReadAtr(Items(Firmware.ResetFrames(atr)) + rest) == Complete(atr, rest)
  {
    hide RecvMessage, Message;
    var m := Message(ANS_CARD_PRESENT, [|atr|]);
    var later := Items(Firmware.AtrParts(atr)) + rest;
    ItemsConcat(m, Firmware.AtrParts(atr));
    assert Items(Firmware.ResetFrames(atr)) + rest == Items(m) + later;
    AnswerRoundTrip(ANS_CARD_PRESENT, [|atr|], later);
    MessageVerifies(ANS_CARD_PRESENT, [|atr|]);
    assert m[1] == m[1..|m| - 1][0];
    PartsArrive(atr, [], rest);
    assert [] + atr == atr;
  }

  // ---- both ends at once ----

  /** The whole system: the host's place in `resync()`, the device, and the bytes under way. */
  datatype World = World(pc: Pc, dev: Firmware.State, toDev: seq<byte>, toHost: seq<byte>)

  /** The attempt, with its challenge, and the card's ATR. */
  datatype Setting = Setting(attempt: nat, challenge: seq<byte>, atr: seq<byte>)

  ghost predicate GoodSetting(k: Setting) {
    k.attempt < 10 && |k.challenge| == 14 && |k.atr| <= 255
  }

  /** The host can always send; it reads when something is there, and sees a timeout only when
      the line is idle and the device has nothing left to do. */
  predicate HostCanMove(w: World) {
    !Ended(w.pc) && (Sends(w.pc) || w.toHost != [] || w.toDev == [])
  }

  predicate DeviceCanMove(w: World) {
    w.toDev != []
  }

  function Suffix(s: seq<byte>, n: nat): seq<byte> {
    if n <= |s| then s[|s| - n..] else s
  }

  /** One step of the host's program, on the bytes that are there, with all its sends going through. */
  function HostMove(w: World, k: Setting): World
    requires HostCanMove(w) && |k.challenge| <= MAX_PAYLOAD
  {
    var s := HostStep(HostState(w.pc, Items(w.toHost), [], [], []), k.challenge);
    w.(pc := s.pc, toDev := w.toDev + s.sent, toHost := Suffix(w.toHost, |s.items|))
  }

  /** What that comes to for a place where it sends, or drains the line. */
  lemma HostMoveIs(w: World, k: Setting)
    requires HostCanMove(w) && |k.challenge| <= MAX_PAYLOAD
    ensures Sends(w.pc) ==>
      HostMove(w, k) ==
        w.(pc := Next(w.pc, SendDone(true), k.challenge), toDev := w.toDev + FrameToSend(w.pc, k.challenge))
    ensures w.pc.Draining? ==>
      HostMove(w, k) ==
        if w.toHost == [] then w.(pc := Next(w.pc, NothingRead, k.challenge))
        else w.(pc := Next(w.pc, ByteRead, k.challenge), toHost := w.toHost[1..])
  {
    hide Message, RecvMessage, CommRecv;
    var none: seq<byte> := [];
    assert Suffix(w.toHost, |w.toHost|) == w.toHost && w.toDev + none == w.toDev;
    if Sends(w.pc) {
      assert none + FrameToSend(w.pc, k.challenge) == FrameToSend(w.pc, k.challenge);
    } else if w.pc.Draining? {
      CommRecvUnfolds(Items(w.toHost), 1);
      if w.toHost != [] {
        CommRecvUnfolds(Items(w.toHost)[1..], 0);
      }
    }
  }

  function DeviceMove(w: World, k: Setting): World
    requires DeviceCanMove(w) && |k.atr| <= 255
  {
    match Receive(Items(w.toDev))
    case Waiting => w
    case Received(r, rest) =>
      var (dev, out) := Firmware.React(w.dev, r, k.atr);
      w.(dev := dev, toDev := Suffix(w.toDev, |rest|), toHost := w.toHost + out)
  }

  datatype Mover = Host | Device

  predicate CanMove(w: World, m: Mover) {
    match m case Host => HostCanMove(w) case Device => DeviceCanMove(w)
  }

  /** One step of a schedule; a mover that cannot move waits. */
  function Move(w: World, m: Mover, k: Setting): World
    requires |k.challenge| <= MAX_PAYLOAD && |k.atr| <= 255
  {
    if !CanMove(w, m) then w
    else match m case Host => HostMove(w, k) case Device => DeviceMove(w, k)
  }

  // ---- stale bytes on their way to the device ----

  /** How many bytes the device sends for these when nothing comes behind them. */
  function Replies(dev: Firmware.State, bytes: seq<byte>, k: Setting): nat
    requires |k.atr| <= 255
    decreases |bytes|
  {
    match Receive(Items(bytes))
    case Waiting => 0
    case Received(r, rest) =>
      var (next, out) := Firmware.React(dev, r, k.atr);
      |out| + Replies(next, Suffix(bytes, |rest|), k)
  }

  /** The same if a resync request comes behind them, at the time that makes it send most: the
      request can be taken for part of a frame that the stale bytes begin. */
  function RepliesAtMost(dev: Firmware.State, stale: seq<byte>, k: Setting): nat
    requires |k.atr| <= 255
    decreases |stale|
  {
    var now := Replies(dev, stale + Message(REQ_RESYNC, []), k);
    match Receive(Items(stale))
    case Waiting => now
    case Received(r, rest) =>
      var (next, out) := Firmware.React(dev, r, k.atr);
      var later := |out| + RepliesAtMost(next, Suffix(stale, |rest|), k);
      if now < later then later else now
  }

  /** The device takes something from bytes that have come, and answers. */
  lemma DeviceAnswers(w: World, k: Setting)
    requires GoodSetting(k) && DeviceCanMove(w)
    ensures var v := DeviceMove(w, k);
      && |v.toDev| < |w.toDev| && v.pc == w.pc && |v.toHost| >= |w.toHost|
      && Replies(w.dev, w.toDev, k) == |v.toHost| - |w.toHost| + Replies(v.dev, v.toDev, k)
      && RepliesAtMost(w.dev, w.toDev, k) >= |v.toHost| - |w.toHost| + RepliesAtMost(v.dev, v.toDev, k)
      && (Settled(w.dev) ==> Settled(v.dev))
  {
    hide Message, Receive, Firmware.React;
    ReceivesSomething(w.toDev);
    var Received(r, rest) := Receive(Items(w.toDev));
    ReactSettles(w.dev, r, k);
  }

  lemma ReceivesSomething(bytes: seq<byte>)
    requires bytes != []
    ensures Receive(Items(bytes)).Received? && |Receive(Items(bytes)).rest| < |bytes|
  {
  }

  /** Nothing is pending in `resync()`. */
  predicate Settled(dev: Firmware.State) {
    dev.place.InResync? ==> dev.writePending == 0
  }

  lemma ReactSettles(dev: Firmware.State, r: Request, k: Setting)
    requires |k.atr| <= 255 && (r.reqType == Invalid || Legal(r)) && |r.payload| <= MAX_PAYLOAD
    ensures Settled(dev) ==> Settled(Firmware.React(dev, r, k.atr).0)
  {
    hide Message, Firmware.ResetFrames;
  }

  // ---- the invariant of the handshake ----

  /** Everything that can be the case during the host's attempt. */
  ghost predicate Inv(w: World, k: Setting)
    requires GoodSetting(k)
  {
    var inResync, echoed := w.dev.place.InResync?, w.dev.place == Firmware.InResync(true);
    && Settled(w.dev)
    && match w.pc
       case Hello(n) => n == k.attempt && |w.toHost| + RepliesAtMost(w.dev, w.toDev, k) + 1 <= 4096
       case Draining(n, read) => n == k.attempt && read + |w.toHost| + Replies(w.dev, w.toDev, k) + 1 <= 4096
       case Again(n) => n == k.attempt && w.toDev == [] && w.toHost == []
       case AwaitEmpty(n) =>
         n == k.attempt && (|| (w.toDev == Message(REQ_RESYNC, []) && w.toHost == [])
                    || (w.toDev == [] && w.toHost == Message(ANS_RESYNC, []) && inResync))
       case Challenge(n) => n == k.attempt && w.toDev == [] && w.toHost == [] && inResync
       case AwaitEcho(n) =>
         n == k.attempt && (|| (w.toDev == Message(REQ_RESYNC, k.challenge) && w.toHost == [] && inResync)
                    || (w.toDev == [] && w.toHost == Message(ANS_RESYNC, k.challenge) && echoed))
       case Finishing(n) => n == k.attempt && w.toDev == [] && w.toHost == [] && echoed
       case AwaitOk(n) =>
         n == k.attempt && (|| (w.toDev == Message(REQ_RESYNC_COMPLETE, []) && w.toHost == [] && echoed)
                    || (w.toDev == [] && w.toHost == Message(ANS_OK, []) && !inResync && w.dev.writePending == 0))
       case Synced(n) => InStep(w, k)
       case GaveUp => false
  }

  /** The host returned 1 in this attempt, the device is back in `loop()`, nothing is pending. */
  ghost predicate InStep(w: World, k: Setting) {
    w.pc == Synced(k.attempt) && w.dev.place.InLoop? && w.dev.writePending == 0 && w.toDev == [] && w.toHost == []
  }

  /** Steps still to come, at most. */
  ghost function Rank(w: World, k: Setting): nat
    requires |k.atr| <= 255
  {
    var stage :=
      match w.pc
      case Hello(_) => 9 case Draining(_, _) => 8 case Again(_) => 7 case AwaitEmpty(_) => 6 case Challenge(_) => 5
      case AwaitEcho(_) => 4 case Finishing(_) => 3 case AwaitOk(_) => 2 case _ => 0;
    var device :=
      match w.pc
      case Hello(_) => |w.toDev| + RepliesAtMost(w.dev, w.toDev, k)
      case Draining(_, _) => |w.toDev| + Replies(w.dev, w.toDev, k)
      case _ => if w.toDev == [] then 0 else 20;
    10000 * stage + |w.toHost| + device
  }

  // ---- each end keeps the invariant ----

  /** The device takes the one request under way. */
  lemma DeviceTakes(w: World, r: Request, k: Setting)
    requires GoodSetting(k) && Legal(r) && w.toDev == SerialReceive.Frame(r)
    ensures DeviceCanMove(w)
    ensures DeviceMove(w, k) ==
      w.(dev := Firmware.React(w.dev, r, k.atr).0, toDev := [], toHost := w.toHost + Firmware.React(w.dev, r, k.atr).1)
  {
    hide Message, Receive, Firmware.React;
    RequestRoundTrip(r, []);
    assert Items(w.toDev) + [] == Items(w.toDev);
    assert Suffix(w.toDev, 0) == [];
  }

  lemma DeviceKeeps(w: World, k: Setting)
    requires GoodSetting(k) && Inv(w, k) && DeviceCanMove(w)
    ensures Inv(DeviceMove(w, k), k) && Rank(DeviceMove(w, k), k) < Rank(w, k)
  {
    hide Message, DeviceMove, Receive, Firmware.LoopReact, Replies, RepliesAtMost;
    DeviceAnswers(w, k);
    if !w.pc.Hello? && !w.pc.Draining? {
      var r := match w.pc
        case AwaitEcho(_) => Request(Resync, k.challenge)
        case AwaitOk(_) => Request(ResyncComplete, [])
        case _ => Request(Resync, []);
      DeviceTakes(w, r, k);
      LoopRejects(w.dev, r, k);
    }
  }

  /** In `loop()` a resync request fails the switch: the device drops a pending write and resyncs. */
  lemma LoopRejects(s: Firmware.State, r: Request, k: Setting)
    requires GoodSetting(k) && r.reqType in {Resync, ResyncComplete} && Legal(r)
    ensures Firmware.LoopReact(s, r, k.atr) == (false, s, [])
  {
    hide Message;
  }

  /** The host takes the one answer under way. */
  lemma HostTakes(w: World, mask: byte, payload: seq<byte>, k: Setting)
    requires GoodSetting(k) && LegalAnswer(mask, payload) && mask % 32 == 0 && w.toHost == Message(mask, payload)
    requires w.pc.AwaitEmpty? || w.pc.AwaitEcho? || w.pc.AwaitOk?
    ensures HostCanMove(w)
    ensures IsAnswer(Got(w.toHost), mask, payload)
    ensures HostMove(w, k) == w.(pc := Next(w.pc, Got(w.toHost), k.challenge), toHost := [])
  {
    hide Message, RecvMessage;
    AnswerRoundTrip(mask, payload, []);
    MessageVerifies(mask, payload);
    assert Items(w.toHost) + [] == Items(w.toHost);
    assert Suffix(w.toHost, 0) == [] && w.toDev + [] == w.toDev;
  }

  lemma HostKeeps(w: World, k: Setting)
    requires GoodSetting(k) && Inv(w, k) && HostCanMove(w)
    ensures Inv(HostMove(w, k), k) && Rank(HostMove(w, k), k) < Rank(w, k)
  {
    hide Message, RecvMessage, IsAnswer, HostMove, Replies;
    HostMoveIs(w, k);
    if w.pc.AwaitEmpty? {
      HostTakes(w, ANS_RESYNC, [], k);
    } else if w.pc.AwaitEcho? {
      HostTakes(w, ANS_RESYNC, k.challenge, k);
    } else if w.pc.AwaitOk? {
      HostTakes(w, ANS_OK, [], k);
    } else if Sends(w.pc) && !w.pc.Hello? {
      assert w.toDev + FrameToSend(w.pc, k.challenge) == FrameToSend(w.pc, k.challenge);
    }
  }

  /** Nobody can move only when the handshake is over. */
  lemma StuckIsInStep(w: World, k: Setting)
    requires GoodSetting(k) && Inv(w, k) && !HostCanMove(w) && !DeviceCanMove(w)
    ensures InStep(w, k)
  {
    hide Message, Replies, RepliesAtMost;
  }

  // ---- every schedule ----

  function Moves(w: World, schedule: seq<Mover>, k: Setting): World
    requires |k.challenge| <= MAX_PAYLOAD && |k.atr| <= 255
    decreases |schedule|
  {
    if schedule == [] then w else Moves(Move(w, schedule[0], k), schedule[1..], k)
  }

  /** How many steps of a schedule were not waiting. */
  function Steps(w: World, schedule: seq<Mover>, k: Setting): nat
    requires |k.challenge| <= MAX_PAYLOAD && |k.atr| <= 255
    decreases |schedule|
  {
    if schedule == [] then 0
    else (if CanMove(w, schedule[0]) then 1 else 0) + Steps(Move(w, schedule[0], k), schedule[1..], k)
  }

  /** Before the handshake: the host at the start of `resync()`, the device in `loop()` or anywhere in
      `resync()`, and any stale bytes on both ways, as long as what there is for the host to read away,
      with all that the device can send for its own, stays under the limit. */
  ghost predicate Before(w: World, k: Setting)
    requires |k.atr| <= 255
  {
    w.pc == Hello(k.attempt) && Settled(w.dev) && |w.toHost| + RepliesAtMost(w.dev, w.toDev, k) < 4096
  }

  lemma {:induction false} SchedulesKeep(w: World, schedule: seq<Mover>, k: Setting)
    requires GoodSetting(k) && Inv(w, k)
    ensures Inv(Moves(w, schedule, k), k)
    ensures Steps(w, schedule, k) + Rank(Moves(w, schedule, k), k) <= Rank(w, k)
    decreases |schedule|
  {
    hide Inv, Rank, HostMove, DeviceMove, CanMove;
    if schedule != [] {
      MoveKeeps(w, schedule[0], k);
      SchedulesKeep(Move(w, schedule[0], k), schedule[1..], k);
    }
  }

  lemma MoveKeeps(w: World, m: Mover, k: Setting)
    requires GoodSetting(k) && Inv(w, k)
    ensures Inv(Move(w, m, k), k)
    ensures Rank(Move(w, m, k), k) + (if CanMove(w, m) then 1 else 0) <= Rank(w, k)
  {
    hide Inv, Rank, HostMove, DeviceMove;
    if CanMove(w, m) {
      match m
      case Host => HostKeeps(w, k);
      case Device => DeviceKeeps(w, k);
    }
  }

  /** The resync handshake converges under every schedule, for every challenge: no schedule makes
      more than 100000 steps beyond one for each byte stale on its way to the device, and where no step
      is left the attempt has returned 1, the device is in `loop()` with nothing pending, and
      both queues are empty. */
  lemma ResyncConverges(w: World, schedule: seq<Mover>, k: Setting)
    requires GoodSetting(k) && Before(w, k)
    ensures Steps(w, schedule, k) <= 100000 + |w.toDev|
    ensures var v := Moves(w, schedule, k);
      HostCanMove(v) || DeviceCanMove(v) || InStep(v, k)
  {
    hide Message, Replies, RepliesAtMost;
    SchedulesKeep(w, schedule, k);
    var v := Moves(w, schedule, k);
    if !HostCanMove(v) && !DeviceCanMove(v) {
      StuckIsInStep(v, k);
    }
  }

  // ---- how much the device can send ----

  /** The parts of an ATR: its bytes, and two more for every 14, as few parts as there can be. */
  lemma {:induction false} PartsSize(atr: seq<byte>)
    ensures |Firmware.AtrParts(atr)| == |atr| + 2 * ((|atr| + 13) / 14)
    decreases |atr|
  {
    hide Message;
    if atr != [] {
      var n := Min(MAX_PAYLOAD, |atr|);
      MessageSize(ANS_CARD_PRESENT, atr[..n]);
      PartsSize(atr[n..]);
    }
  }

  lemma MessageSize(mask: byte, payload: seq<byte>)
    requires mask % 32 == 0 && |payload| <= MAX_PAYLOAD
    ensures |Message(mask, payload)| == |payload| + 2
  {
  }

  /** No request makes the device send more than 100 bytes for each byte it took. */
  lemma ReplyBound(dev: Firmware.State, bytes: seq<byte>, k: Setting)
    requires GoodSetting(k) && bytes != []
    ensures var x := Receive(Items(bytes));
      x.Received? && |Firmware.React(dev, x.request, k.atr).1| <= 100 * (|bytes| - |x.rest|)
  {
    ReceivesSomething(bytes);
    var Received(r, rest) := Receive(Items(bytes));
    RequestTakes(bytes);
    ReactSize(dev, r, k);
  }

  /** A request was as long as its frame. */
  lemma RequestTakes(bytes: seq<byte>)
    requires Receive(Items(bytes)).Received?
    ensures var x := Receive(Items(bytes));
      |bytes| - |x.rest| >= if x.request.reqType == Invalid then 1 else |x.request.payload| + 2
  {
    if Receive(Items(bytes)).request.reqType != Invalid {
      RequestSound(Items(bytes));
    }
  }

  lemma ReactSize(dev: Firmware.State, r: Request, k: Setting)
    requires GoodSetting(k) && (r.reqType == Invalid || Legal(r)) && |r.payload| <= MAX_PAYLOAD
    ensures |Firmware.React(dev, r, k.atr).1| <= if r.reqType == Invalid then 2 else 100 * (|r.payload| + 2)
  {
    hide Message;
    MessageSize(ANS_OK, []);
    MessageSize(ANS_RESYNC, []);
    MessageSize(ANS_RESYNC, r.payload);
    MessageSize(ANS_CARD_PRESENT, []);
    MessageSize(ANS_CARD_PRESENT, [|k.atr|]);
    MessageSize(ANS_CARD_ABSENT, []);
    MessageSize(ANS_CARD_EOD, []);
    PartsSize(k.atr);
  }

  lemma {:induction false} RepliesBound(dev: Firmware.State, bytes: seq<byte>, k: Setting)
    requires GoodSetting(k)
    ensures Replies(dev, bytes, k) <= 100 * |bytes|
    decreases |bytes|
  {
    hide Receive, Firmware.React;
    if bytes != [] {
      ReplyBound(dev, bytes, k);
      var Received(r, rest) := Receive(Items(bytes));
      RepliesBound(Firmware.React(dev, r, k.atr).0, Suffix(bytes, |rest|), k);
    } else {
      NothingToReceive();
    }
  }

  /** In any case it sends at most 100 bytes for each that is stale, and 200 for the request. */
  lemma {:induction false} RepliesAtMostBound(dev: Firmware.State, stale: seq<byte>, k: Setting)
    requires GoodSetting(k)
    ensures RepliesAtMost(dev, stale, k) <= 100 * |stale| + 200
    decreases |stale|
  {
    hide Receive, Firmware.React, Message, Replies;
    MessageSize(REQ_RESYNC, []);
    RepliesBound(dev, stale + Message(REQ_RESYNC, []), k);
    if stale != [] {
      ReplyBound(dev, stale, k);
      var Received(r, rest) := Receive(Items(stale));
      RepliesAtMostBound(Firmware.React(dev, r, k.atr).0, Suffix(stale, |rest|), k);
    } else {
      NothingToReceive();
    }
  }

  /** So 38 stale bytes on their way to the device do no harm, whatever they are, if not more than 95
      are on their way back. */
  lemma FewAreHarmless(w: World, k: Setting)
    requires GoodSetting(k) && w.pc == Hello(k.attempt) && Settled(w.dev)
    requires |w.toHost| + 100 * |w.toDev| + 200 < 4096
    ensures Before(w, k)
  {
    RepliesAtMostBound(w.dev, w.toDev, k);
  }

  // ---- the next attempt ----

  function HostMoves(n: nat): seq<Mover> {
    seq(n, _ => Host)
  }

  /** The host reads away `n` bytes. */
  lemma {:induction false} ReadsAway(w: World, n: nat, k: Setting)
    requires GoodSetting(k) && w.pc.Draining? && n <= |w.toHost| && w.pc.read + n < 4096
    ensures Moves(w, HostMoves(n), k) ==
      w.(pc := Draining(w.pc.n, w.pc.read + n), toHost := w.toHost[n..])
    decreases n
  {
    hide HostMove;
    if n > 0 {
      HostMoveIs(w, k);
      assert HostMoves(n)[1..] == HostMoves(n - 1);
      var v := HostMove(w, k);
      ReadsAway(v, n - 1, k);
      assert v.toHost[n - 1..] == w.toHost[n..];
    } else {
      assert w.toHost[0..] == w.toHost;
    }
  }

  /** With 4096 bytes or more to read away the host gives the attempt up after just 4096, and begins the
      next, unless it was the tenth. */
  lemma GarbageEndsAttempt(w: World, k: Setting)
    requires GoodSetting(k) && w.pc == Hello(k.attempt) && |w.toHost| >= 4096
    ensures Moves(w, HostMoves(4097), k) ==
      w.(pc := if k.attempt < 9 then Hello(k.attempt + 1) else GaveUp,
         toDev := w.toDev + Message(REQ_RESYNC, []), toHost := w.toHost[4096..])
  {
    hide Message, HostMove, Moves;
    HostMoveIs(w, k);
    var v := HostMove(w, k);
    MovesFirst(w, HostMoves(4097), k);
    assert HostMoves(4097)[1..] == HostMoves(4095) + [Host];
    ReadsAway(v, 4095, k);
    var u := Moves(v, HostMoves(4095), k);
    MovesThen(v, HostMoves(4095), Host, k);
    HostMoveIs(u, k);
    assert u.toHost[1..] == w.toHost[4096..];
  }

  lemma MovesFirst(w: World, schedule: seq<Mover>, k: Setting)
    requires GoodSetting(k) && schedule != []
    ensures Moves(w, schedule, k) == Moves(Move(w, schedule[0], k), schedule[1..], k)
  {
  }

  lemma {:induction false} MovesThen(w: World, schedule: seq<Mover>, m: Mover, k: Setting)
    requires GoodSetting(k)
    ensures Moves(w, schedule + [m], k) == Move(Moves(w, schedule, k), m, k)
    decreases |schedule|
  {
    hide Move;
    if schedule != [] {
      MovesThen(Move(w, schedule[0], k), schedule[1..], m, k);
      assert (schedule + [m])[1..] == schedule[1..] + [m];
    } else {
      assert [m][1..] == [];
    }
  }
}
