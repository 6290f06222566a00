/** The device side of the serial protocol: the main loop of the firmware, its resync loop and
    the chunked transmission of the ATR (main_loop.cpp). */
module Firmware {
  import opened Bytes
  import opened SerialFrame
  import opened SerialReceive

  /** Where the device waits for the next request: in `loop()`, or in `resync()` with its `resyncState`. */
  datatype Place = InLoop | InResync(echoed: bool)

  datatype State = State(present: bool, writePending: nat, place: Place)

  // ---- what one request makes the device do ----

  /** One turn of the loop of `resync()`: where the device is after it. */
  function NextPlace(echoed: bool, t: ReqType): Place {
    if t == Invalid then InResync(false)
    else if echoed && t == ResyncComplete then InLoop
    else InResync(t == Resync)
  }

  /** What it sends in that turn. */
  function ResyncReply(echoed: bool, r: Request): seq<byte>
    requires |r.payload| <= MAX_PAYLOAD
  {
    if NextPlace(echoed, r.reqType).InLoop? then Message(ANS_OK, [])
    else Message(ANS_RESYNC, if r.reqType == Resync then r.payload else [])
  }

  /** The parts of an ATR, at most 14 bytes each. */
  function AtrParts(atr: seq<byte>): seq<byte>
    decreases |atr|
  {
    if atr == [] then []
    else
      var n := Min(MAX_PAYLOAD, |atr|);
      Message(ANS_CARD_PRESENT, atr[..n]) + AtrParts(atr[n..])
  }

  /** What `card_reset` sends: the length of the ATR, then its parts. */
  function ResetFrames(atr: seq<byte>): seq<byte>
    requires |atr| <= 255
  {
    Message(ANS_CARD_PRESENT, [|atr|]) + AtrParts(atr)
  }

  /** The switch of `loop()`: whether it succeeds, the state after it, what it sent. */
  function LoopReact(s: State, r: Request, atr: seq<byte>): (bool, State, seq<byte>)
    requires |atr| <= 255 && (r.reqType == Invalid || Legal(r))
  {
    match r.reqType
    case CardStatus =>
      if r.payload == [] then (true, s, Message(if s.present then ANS_CARD_PRESENT else ANS_CARD_ABSENT, []))
      else if r.payload[0] == 0 then (true, s.(present := false), Message(ANS_CARD_ABSENT, []))
      else (true, s.(present := true), ResetFrames(atr))
    case CardCommit => if s.writePending > 0 then (false, s, []) else (true, s, Message(ANS_OK, []))
    case CardReadComplete => (true, s, Message(ANS_OK, []))
    case CardRead => (true, s, Message(ANS_CARD_EOD, []))
    case CardSend =>
      if s.writePending > 0 then (true, s, Message(ANS_OK, []))
      else if |r.payload| == 2 then
        var low: int, high: int := r.payload[0], r.payload[1];
        (true, s.(writePending := low + 256 * high), Message(ANS_OK, []))
      else (false, s, [])
    case _ => (false, s, [])
  }

  /** From one wait for a request to the next. */
  function React(s: State, r: Request, atr: seq<byte>): (State, seq<byte>)
    requires |atr| <= 255 && (r.reqType == Invalid || Legal(r)) && |r.payload| <= MAX_PAYLOAD
  {
    match s.place
    case InResync(echoed) =>
      (s.(place := NextPlace(echoed, r.reqType)), ResyncReply(echoed, r))
    case InLoop =>
      var (ok, t, out) := LoopReact(s, r, atr);
      if ok then (t, out) else (t.(writePending := 0, place := InResync(false)), out + Message(ANS_RESYNC, []))
  }

  // ---- the resync loop over any input ----

  /** `resync()` fed with `items`: whether it returned, the requests it decoded, what it sent
      after its first notification, and what is left to read. */
  datatype ResyncEnd = ResyncEnd(completed: bool, requests: seq<Request>, out: seq<byte>, rest: seq<Item>)

  function ResyncRun(items: seq<Item>, echoed: bool): ResyncEnd
    decreases |items|
  {
    match Receive(items)
    case Waiting => ResyncEnd(false, [], [], [])
    case Received(r, rest) =>
      var place := NextPlace(echoed, r.reqType);
      if place.InLoop? then ResyncEnd(true, [r], ResyncReply(echoed, r), rest)
      else
        var e := ResyncRun(rest, place.echoed);
        e.(requests := [r] + e.requests, out := ResyncReply(echoed, r) + e.out)
  }

  /** The run from one decoded request on. */
  function AfterRequest(echoed: bool, r: Request, rest: seq<Item>): ResyncEnd
    requires |r.payload| <= MAX_PAYLOAD
  {
    if NextPlace(echoed, r.reqType).InLoop? then ResyncEnd(true, [r], ResyncReply(echoed, r), rest)
    else
      var f := ResyncRun(rest, r.reqType == Resync);
      ResyncEnd(f.completed, [r] + f.requests, ResyncReply(echoed, r) + f.out, f.rest)
  }

  lemma ResyncRunUnfolds(items: seq<Item>, echoed: bool)
    ensures Receive(items).Waiting? ==> ResyncRun(items, echoed) == ResyncEnd(false, [], [], [])
    ensures Receive(items).Received? ==>
      ResyncRun(items, echoed) == AfterRequest(echoed, Receive(items).request, Receive(items).rest)
  {
    hide Message, Receive, ResyncReply;
  }

  /** A Resync directly followed by a ResyncComplete. */
  predicate Handshake(rs: seq<Request>, i: int) {
    0 <= i && i + 1 < |rs| && rs[i].reqType == Resync && rs[i + 1].reqType == ResyncComplete
  }

  /** The Resync already echoed before the run began, if there was one. */
  function Earlier(echoed: bool): seq<Request> {
    if echoed then [Request(Resync, [])] else []
  }

  lemma {:induction false} ResyncRunHandshake(items: seq<Item>, echoed: bool)
    ensures var e := ResyncRun(items, echoed);
      var all := Earlier(echoed) + e.requests;
      && (e.completed ==> Handshake(all, |all| - 2))
      && (forall i :: Handshake(all, i) ==> e.completed && i == |all| - 2)
    decreases |items|
  {
    hide Receive, ResyncReply;
    match Receive(items)
    case Waiting =>
    case Received(r, rest) =>
      var all := Earlier(echoed) + ResyncRun(items, echoed).requests;
      var place := NextPlace(echoed, r.reqType);
      if place.InLoop? {
        assert all == [Request(Resync, []), r];
      } else {
        ResyncRunHandshake(rest, place.echoed);
        var f := ResyncRun(rest, place.echoed);
        HandshakeLater(echoed, r, f.requests, f.completed);
      }
  }

  /** A request that does not complete the handshake adds none and hides none. */
  lemma HandshakeLater(echoed: bool, r: Request, rs: seq<Request>, completed: bool)
    requires !NextPlace(echoed, r.reqType).InLoop?
    requires var later := Earlier(NextPlace(echoed, r.reqType).echoed) + rs;
      && (completed ==> Handshake(later, |later| - 2))
      && (forall i :: Handshake(later, i) ==> completed && i == |later| - 2)
    ensures var all := Earlier(echoed) + ([r] + rs);
      && (completed ==> Handshake(all, |all| - 2))
      && (forall i :: Handshake(all, i) ==> completed && i == |all| - 2)
  {
    var later := Earlier(NextPlace(echoed, r.reqType).echoed) + rs;
    var all := Earlier(echoed) + ([r] + rs);
    var k := |all| - |later|;
    assert forall j | 0 < j < |later| :: all[k + j] == later[j];
    assert r.reqType == Resync ==> all[k].reqType == Resync;
    if completed {
      assert Handshake(later, |later| - 2);
    }
    forall i | Handshake(all, i)
      ensures completed && i == |all| - 2
    {
      assert i - k >= 0 && Handshake(later, i - k);
    }
  }

  predicate EndsWith(s: seq<byte>, tail: seq<byte>) {
    |s| >= |tail| && s[|s| - |tail|..] == tail
  }

  /** After a completed handshake, the last things sent are the echo and the Ok. */
  predicate LastReplies(rs: seq<Request>, out: seq<byte>) {
    var n := |rs|;
    && n >= 1 && EndsWith(out, Message(ANS_OK, [])) && (n == 1 ==> out == Message(ANS_OK, []))
    && (n >= 2 && rs[n - 2].reqType == Resync && |rs[n - 2].payload| <= MAX_PAYLOAD ==>
          EndsWith(out, Message(ANS_RESYNC, rs[n - 2].payload) + Message(ANS_OK, [])))
  }

  lemma EndsWithLonger(a: seq<byte>, b: seq<byte>, tail: seq<byte>)
    requires EndsWith(b, tail)
    ensures EndsWith(a + b, tail)
  {
    assert (a + b)[|a + b| - |tail|..] == b[|b| - |tail|..];
  }

  lemma EndsWithItself(s: seq<byte>)
    ensures EndsWith(s, s)
  {
  }

  lemma LastRepliesLater(echoed: bool, r: Request, rs: seq<Request>, out: seq<byte>)
    requires |r.payload| <= MAX_PAYLOAD && LastReplies(rs, out)
    ensures r.reqType == Resync ==> LastReplies([r] + rs, Message(ANS_RESYNC, r.payload) + out)
    ensures r.reqType != Resync ==> LastReplies([r] + rs, ResyncReply(echoed, r) + out)
  {
    hide Message, NextPlace, EndsWith, ResyncReply;
    var reply := if r.reqType == Resync then Message(ANS_RESYNC, r.payload) else ResyncReply(echoed, r);
    EndsWithLonger(reply, out, Message(ANS_OK, []));
    EndsWithItself(reply + out);
    if |rs| >= 2 && rs[|rs| - 2].reqType == Resync && |rs[|rs| - 2].payload| <= MAX_PAYLOAD {
      EndsWithLonger(reply, out, Message(ANS_RESYNC, rs[|rs| - 2].payload) + Message(ANS_OK, []));
    }
  }

  lemma {:induction false} ResyncRunReplies(items: seq<Item>, echoed: bool)
    ensures var e := ResyncRun(items, echoed);
      && (forall i | 0 <= i < |e.requests| :: |e.requests[i].payload| <= MAX_PAYLOAD)
      && (e.completed ==> LastReplies(e.requests, e.out))
    decreases |items|
  {
    hide Receive, Message, LastReplies;
    match Receive(items)
    case Waiting =>
    case Received(r, rest) =>
      var place := NextPlace(echoed, r.reqType);
      if place.InLoop? {
        assert LastReplies([r], Message(ANS_OK, [])) by {
          OneReply(r);
        }
      } else {
        ResyncRunReplies(rest, place.echoed);
        var f := ResyncRun(rest, place.echoed);
        if f.completed {
          LastRepliesLater(echoed, r, f.requests, f.out);
        }
      }
  }

  lemma OneReply(r: Request)
    ensures LastReplies([r], Message(ANS_OK, []))
  {
  }

  /** Exit safety: from a fresh start, `resync()` returns exactly when it has decoded a Resync
      directly followed by a ResyncComplete; those two are then the last requests it decoded,
      and the last things it sent are the echo of the one and the Ok to the other. */
  lemma ResyncExit(items: seq<Item>)
    ensures var e := ResyncRun(items, false);
      var n := |e.requests|;
      && (e.completed <==> exists i :: Handshake(e.requests, i))
      && (e.completed ==>
            && Handshake(e.requests, n - 2) && (forall i :: Handshake(e.requests, i) ==> i == n - 2)
            && |e.requests[n - 2].payload| <= MAX_PAYLOAD
            && EndsWith(e.out, Message(ANS_RESYNC, e.requests[n - 2].payload) + Message(ANS_OK, [])))
  {
    hide Message, ResyncRun, Receive;
    ResyncRunHandshake(items, false);
    ResyncRunReplies(items, false);
    var e := ResyncRun(items, false);
    assert Earlier(false) + e.requests == e.requests;
    if e.completed {
      assert Handshake(e.requests, |e.requests| - 2);
    }
  }

  // ---- the firmware itself ----

  class Device {
    var present: bool
    var writePending: nat
    var output: seq<byte>
    const atr: seq<byte>
    const port: Port
    ghost var decoded: seq<Request>

    constructor (port: Port, atr: seq<byte>)
      requires |atr| <= 255
      ensures this.port == port && this.atr == atr && !present && writePending == 0 && output == [] && decoded == []
    {
      this.port, this.atr := port, atr;
      present, writePending, output, decoded := false, 0, [], [];
    }

    method Send(mask: byte, payload: seq<byte>) returns (ok: bool)
      requires mask % 32 == 0
      modifies this`output
      ensures ok <==> |payload| <= MAX_PAYLOAD
      ensures output == old(output) + if ok then Message(mask, payload) else []
    {
      hide Message;
      var frame;
      ok, frame := SendAnswer(mask, payload);
      output := output + frame;
    }

    /** The answer to one request in `resync()`; `left` means the code returns. */
    method AnswerInResync(state: int, request: Request) returns (left: bool, resyncState: int)
      requires state in {0, 1} && |request.payload| <= MAX_PAYLOAD
      modifies this`output
      ensures left <==> NextPlace(state == 1, request.reqType).InLoop?
      ensures resyncState == (if !left && request.reqType == Resync then 1 else 0)
      ensures output == old(output) + ResyncReply(state == 1, request)
    {
      hide Message;
      resyncState := state;
      var sent;
      if request.reqType == Invalid {
        sent := Send(ANS_RESYNC, []);
        return false, 0;
      }
      if resyncState == 1 {
        resyncState := 0;
        if request.reqType == ResyncComplete {
          sent := Send(ANS_OK, []);
          return true, resyncState;
        }
      }
      if request.reqType != Resync {
        sent := Send(ANS_RESYNC, []);
        return false, resyncState;
      }
      sent := Send(ANS_RESYNC, request.payload);
      return false, 1;
    }

    /** `resync()`; when it does not return, the device waits in it with its input used up. */
    method ResyncLoop() returns (completed: bool)
      modifies this`output, this`decoded, port
      ensures var e := ResyncRun(old(port.input), false);
        && completed == e.completed && port.input == e.rest && decoded == old(decoded) + e.requests
        && output == old(output) + Message(ANS_RESYNC, []) + e.out
    {
      hide Message, Receive, ResyncRun, ResyncReply;
      var sent := Send(ANS_RESYNC, []);
      ghost var items, out, log := port.input, output, decoded;
      var resyncState := 0;
      while true
        invariant resyncState in {0, 1}
        invariant var e, f := ResyncRun(items, false), ResyncRun(port.input, resyncState == 1);
          && e.completed == f.completed && e.rest == f.rest
          && log + e.requests == decoded + f.requests && out + e.out == output + f.out
        decreases |port.input|
      {
        ResyncRunUnfolds(port.input, resyncState == 1);
        var waiting, request := ReceiveRequest(port);
        if waiting {
          return false;
        }
        decoded := decoded + [request];
        var left;
        left, resyncState := AnswerInResync(resyncState, request);
        if left {
          return true;
        }
      }
    }

    /** `card_reset()`. */
    method CardReset()
      requires |atr| <= 255
      modifies this`output
      ensures output == old(output) + ResetFrames(atr)
    {
      hide Message;
      var ok := Send(ANS_CARD_PRESENT, [|atr|]);
      ghost var out := output;
      var rem := |atr|;
      while rem > 0
        invariant 0 <= rem <= |atr|
        invariant output + AtrParts(atr[|atr| - rem..]) == out + AtrParts(atr)
      {
        var part := Min(MAX_PAYLOAD, rem);
        var left := atr[|atr| - rem..];
        ok := Send(ANS_CARD_PRESENT, left[..part]);
        assert left[part..] == atr[|atr| - (rem - part)..];
        rem := rem - part;
      }
      assert atr[|atr|..] == [] && atr[0..] == atr && output + [] == output;
    }

    /** `loop()`, once. */
    method Loop() returns (waiting: bool)
      requires |atr| <= 255
      modifies this, port
      ensures match Receive(old(port.input))
        case Waiting =>
          waiting && port.input == [] && output == old(output) && decoded == old(decoded)
          && present == old(present) && writePending == old(writePending)
        case Received(r, rest) =>
          var (ok, t, out) := LoopReact(State(old(present), old(writePending), InLoop), r, atr);
          && !waiting && present == t.present
          && if ok
             then port.input == rest && output == old(output) + out && writePending == t.writePending
                  && decoded == old(decoded) + [r]
             else var e := ResyncRun(rest, false);
                  && port.input == e.rest && writePending == 0 && decoded == old(decoded) + [r] + e.requests
                  && output == old(output) + (out + Message(ANS_RESYNC, [])) + e.out
    {
      hide Message, Receive, ResyncRun, ResetFrames;
      var request;
      waiting, request := ReceiveRequest(port);
      if waiting {
        return;
      }
      decoded := decoded + [request];
      var result := true;
      match request.reqType {
        case CardStatus =>
          if request.payload == [] {
            result := Send(if present then ANS_CARD_PRESENT else ANS_CARD_ABSENT, []);
          } else if request.payload[0] == 0 {
            present := false;
            result := Send(ANS_CARD_ABSENT, []);
          } else {
            CardReset();
            present := true;
          }
        case CardCommit =>
          if writePending > 0 {
            result := false;
          } else {
            result := Send(ANS_OK, []);
          }
        case CardReadComplete =>
          result := Send(ANS_OK, []);
        case CardRead =>
          result := Send(ANS_CARD_EOD, []);
        case CardSend =>
          if writePending > 0 {
            result := Send(ANS_OK, []);
          } else if |request.payload| == 2 {
            var low: int, high: int := request.payload[0], request.payload[1];
            writePending := low + 256 * high;
            result := Send(ANS_OK, []);
          } else {
            result := false;
          }
        case _ =>
          result := false;
      }
      if !result {
        writePending := 0;
        var completed := ResyncLoop();
      }
    }
  }
}
