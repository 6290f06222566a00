/** The host side of the serial protocol (ifd-cardemu.c): the resync handshake as a program
    over what it sends and receives, and reading an ATR in parts. */
module HostDriver {
  import opened Bytes
  import opened SerialFrame
  import opened SerialReceive

  const MAX_RESYNC_TRIES: nat := 10
  const MAX_RESYNC_GARBAGE: nat := 4096

  // ---- the resync program ----

  /** Where `resync()` is in its attempt number `n`. */
  datatype Pc =
    | Hello(n: nat)                  // sends the first empty resync request
    | Draining(n: nat, read: nat)    // reads until the line pauses
    | Again(n: nat)                  // sends the second empty request
    | AwaitEmpty(n: nat)
    | Challenge(n: nat)              // sends the control sequence
    | AwaitEcho(n: nat)
    | Finishing(n: nat)              // sends RESYNC_COMPLETE
    | AwaitOk(n: nat)
    | Synced(n: nat)                 // returned 1
    | GaveUp                         // returned 0

  datatype Event = SendDone(ok: bool) | ByteRead | NothingRead | Got(msg: seq<byte>) | NoMessage

  predicate Fits(pc: Pc, e: Event) {
    match pc
    case Draining(_, _) => e.ByteRead? || e.NothingRead?
    case AwaitEmpty(_) => e.Got? || e.NoMessage?
    case AwaitEcho(_) => e.Got? || e.NoMessage?
    case AwaitOk(_) => e.Got? || e.NoMessage?
    case Synced(_) => false
    case GaveUp => false
    case _ => e.SendDone?
  }

  function Retry(n: nat): Pc {
    if n + 1 >= MAX_RESYNC_TRIES then GaveUp else Hello(n + 1)
  }

  /** An answer of the given type and payload, as far as `resync()` looks at it. */
  predicate IsAnswer(e: Event, mask: byte, payload: seq<byte>) {
    e.Got? && |e.msg| == |payload| + 2 && TypeBits(e.msg[0]) == mask && e.msg[1..|e.msg| - 1] == payload
  }

  function Next(pc: Pc, e: Event, challenge: seq<byte>): Pc
    requires Fits(pc, e)
  {
    match pc
    case Hello(n) => if e.ok then Draining(n, 0) else Retry(n)
    case Draining(n, read) =>
      if e.NothingRead? then Again(n)
      else if read + 1 >= MAX_RESYNC_GARBAGE then Retry(n)
      else Draining(n, read + 1)
    case Again(n) => if e.ok then AwaitEmpty(n) else Retry(n)
    case AwaitEmpty(n) => if IsAnswer(e, ANS_RESYNC, []) then Challenge(n) else Retry(n)
    case Challenge(n) => if e.ok then AwaitEcho(n) else Retry(n)
    case AwaitEcho(n) => if IsAnswer(e, ANS_RESYNC, challenge) then Finishing(n) else Retry(n)
    case Finishing(n) => if e.ok then AwaitOk(n) else Retry(n)
    case AwaitOk(n) => if IsAnswer(e, ANS_OK, []) then Synced(n) else Retry(n)
  }

  /** The frame a sending step puts on the line. */
  function FrameToSend(pc: Pc, challenge: seq<byte>): seq<byte>
    requires |challenge| <= MAX_PAYLOAD
  {
    match pc
    case Challenge(_) => Message(REQ_RESYNC, challenge)
    case Finishing(_) => Message(REQ_RESYNC_COMPLETE, [])
    case _ => Message(REQ_RESYNC, [])
  }

  type Challenges = nat -> seq<byte>

  function Attempt(pc: Pc): nat {
    if pc.GaveUp? then 0 else pc.n
  }

  /** Whether `es` is a possible history of `resync()`, and where it leads. */
  predicate IsHistory(es: seq<Event>, challenges: Challenges)
    decreases |es|, 0
  {
    es == [] ||
    (IsHistory(es[..|es| - 1], challenges) && Fits(After(es[..|es| - 1], challenges), es[|es| - 1]))
  }

  function After(es: seq<Event>, challenges: Challenges): Pc
    requires IsHistory(es, challenges)
    decreases |es|, 1
  {
    if es == [] then Hello(0)
    else
      var pc := After(es[..|es| - 1], challenges);
      Next(pc, es[|es| - 1], challenges(Attempt(pc)))
  }

  /** The end of a history in which one attempt went through: after a pause, the empty request
      was answered, the challenge was echoed, and RESYNC_COMPLETE was answered Ok. */
  predicate Confirmed(es: seq<Event>, challenge: seq<byte>) {
    var k := |es|;
    && k >= 7
    && es[k - 7] == NothingRead
    && es[k - 6] == SendDone(true) && IsAnswer(es[k - 5], ANS_RESYNC, [])
    && es[k - 4] == SendDone(true) && IsAnswer(es[k - 3], ANS_RESYNC, challenge)
    && es[k - 2] == SendDone(true) && IsAnswer(es[k - 1], ANS_OK, [])
  }

  /** The last event of a prefix of length `k`, seen from the state after it. */
  lemma LastEvent(es: seq<Event>, challenges: Challenges, k: nat)
    requires k <= |es| && IsHistory(es[..k], challenges) && After(es[..k], challenges) != Hello(0)
    ensures k > 0 && IsHistory(es[..k - 1], challenges)
    ensures var pc := After(es[..k - 1], challenges);
      Fits(pc, es[k - 1]) && After(es[..k], challenges) == Next(pc, es[k - 1], challenges(Attempt(pc)))
  {
    if k > 0 {
      assert es[..k][..k - 1] == es[..k - 1];
    }
  }

  /** The only way to each of the later places: the place before it, and the event that leads on. */
  function Predecessor(pc: Pc): Pc {
    match pc
    case Synced(n) => AwaitOk(n)
    case AwaitOk(n) => Finishing(n)
    case Finishing(n) => AwaitEcho(n)
    case AwaitEcho(n) => Challenge(n)
    case Challenge(n) => AwaitEmpty(n)
    case AwaitEmpty(n) => Again(n)
    case _ => pc
  }

  predicate LeadsTo(e: Event, pc: Pc, challenges: Challenges) {
    match pc
    case Synced(_) => IsAnswer(e, ANS_OK, [])
    case Finishing(n) => IsAnswer(e, ANS_RESYNC, challenges(n))
    case Challenge(_) => IsAnswer(e, ANS_RESYNC, [])
    case _ => e == SendDone(true)
  }

  lemma OneBack(es: seq<Event>, challenges: Challenges, k: nat)
    requires k <= |es| && IsHistory(es[..k], challenges)
      && Predecessor(After(es[..k], challenges)) != After(es[..k], challenges)
    ensures k > 0 && IsHistory(es[..k - 1], challenges)
    ensures After(es[..k - 1], challenges) == Predecessor(After(es[..k], challenges))
    ensures LeadsTo(es[k - 1], After(es[..k], challenges), challenges)
  {
    hide IsHistory, After, IsAnswer;
    LastEvent(es, challenges, k);
  }

  /** Exit safety of the host: whatever it received, `resync()` returns 1 only after one attempt
      saw its own challenge echoed and then an Ok. */
  lemma SyncedIsConfirmed(es: seq<Event>, challenges: Challenges)
    requires IsHistory(es, challenges) && After(es, challenges).Synced?
    ensures Confirmed(es, challenges(After(es, challenges).n))
  {
    hide IsHistory, After, IsAnswer, Next;
    var k := |es|;
    assert es[..k] == es;
    OneBack(es, challenges, k);
    OneBack(es, challenges, k - 1);
    OneBack(es, challenges, k - 2);
    OneBack(es, challenges, k - 3);
    OneBack(es, challenges, k - 4);
    OneBack(es, challenges, k - 5);
    AgainAfterPause(es, challenges, k - 6);
  }

  lemma AgainAfterPause(es: seq<Event>, challenges: Challenges, k: nat)
    requires k <= |es| && IsHistory(es[..k], challenges) && After(es[..k], challenges).Again?
    ensures k > 0 && es[k - 1] == NothingRead
  {
    hide IsHistory, After, IsAnswer;
    LastEvent(es, challenges, k);
  }

  // ---- the program on values ----

  /** Where the program is; what it has still to read, and which of its sends will go through (all,
      once the list is used up); what it sent, and its history. */
  datatype HostState = HostState(pc: Pc, items: seq<Item>, accepts: seq<bool>, sent: seq<byte>, es: seq<Event>)

  predicate Sends(pc: Pc) {
    pc.Hello? || pc.Again? || pc.Challenge? || pc.Finishing?
  }

  predicate Ended(pc: Pc) {
    pc.Synced? || pc.GaveUp?
  }

  function SendOk(accepts: seq<bool>): bool {
    accepts == [] || accepts[0]
  }

  function Later(accepts: seq<bool>): seq<bool> {
    if accepts == [] then [] else accepts[1..]
  }

  function Started(items: seq<Item>, accepts: seq<bool>): HostState {
    HostState(Hello(0), items, accepts, [], [])
  }

  /** What the program meets at its place, and what it has still to read then. */
  function Meets(s: HostState): (r: (Event, seq<Item>))
    requires !Ended(s.pc)
    ensures Fits(s.pc, r.0) && |r.1| <= |s.items|
  {
    if Sends(s.pc) then (SendDone(SendOk(s.accepts)), s.items)
    else if s.pc.Draining? then
      var (got, rest) := CommRecv(s.items, 1);
      (if got == [] then NothingRead else ByteRead, rest)
    else
      RecvMessageReads(s.items);
      match RecvMessage(s.items)
      case Answered(msg, rest) => (Got(msg), rest)
      case NoAnswer(rest) => (NoMessage, rest)
  }

  function HostStep(s: HostState, challenge: seq<byte>): HostState
    requires !Ended(s.pc) && |challenge| <= MAX_PAYLOAD
  {
    var (e, rest) := Meets(s);
    HostState(Next(s.pc, e, challenge), rest, if Sends(s.pc) then Later(s.accepts) else s.accepts,
              s.sent + (if Sends(s.pc) && e.ok then FrameToSend(s.pc, challenge) else []), s.es + [e])
  }

  /** Places still to come, at most. */
  function Ahead(pc: Pc): nat {
    match pc
    case Hello(n) => 8 + 8 * Left(n) case Draining(n, _) => 7 + 8 * Left(n) case Again(n) => 6 + 8 * Left(n)
    case AwaitEmpty(n) => 5 + 8 * Left(n) case Challenge(n) => 4 + 8 * Left(n) case AwaitEcho(n) => 3 + 8 * Left(n)
    case Finishing(n) => 2 + 8 * Left(n) case AwaitOk(n) => 1 + 8 * Left(n) case _ => 0
  }

  function Left(n: nat): nat {
    if n < MAX_RESYNC_TRIES then MAX_RESYNC_TRIES - n else 0
  }

  function Undrained(pc: Pc): nat {
    if pc.Draining? && pc.read < MAX_RESYNC_GARBAGE then MAX_RESYNC_GARBAGE - pc.read else 0
  }

  ghost predicate Challenging(challenges: Challenges) {
    forall n :: |challenges(n)| == MAX_PAYLOAD
  }

  /** `resync()` from a place on; it ends whatever it reads. */
  function HostRun(s: HostState, challenges: Challenges): (t: HostState)
    requires Challenging(challenges) && (!Ended(s.pc) ==> s.pc.n < MAX_RESYNC_TRIES)
    ensures Ended(t.pc)
    decreases Ahead(s.pc), Undrained(s.pc)
  {
    if Ended(s.pc) then s
    else
      NextIsNearer(s.pc, Meets(s).0, challenges(s.pc.n));
      HostRun(HostStep(s, challenges(s.pc.n)), challenges)
  }

  lemma NextIsNearer(pc: Pc, e: Event, challenge: seq<byte>)
    requires !Ended(pc) && Fits(pc, e) && pc.n < MAX_RESYNC_TRIES
    ensures var next := Next(pc, e, challenge);
      && (!Ended(next) ==> next.n < MAX_RESYNC_TRIES)
      && (Ahead(next) < Ahead(pc) || (Ahead(next) == Ahead(pc) && Undrained(next) < Undrained(pc)))
  {
    hide IsAnswer;
  }

  /** The record of a run is a history of the program. */
  lemma {:induction false} RunIsHistory(s: HostState, challenges: Challenges)
    requires Challenging(challenges) && (!Ended(s.pc) ==> s.pc.n < MAX_RESYNC_TRIES)
    requires IsHistory(s.es, challenges) && After(s.es, challenges) == s.pc
    ensures var t := HostRun(s, challenges);
      IsHistory(t.es, challenges) && After(t.es, challenges) == t.pc
    decreases Ahead(s.pc), Undrained(s.pc)
  {
    hide IsHistory, After, Next, Meets;
    if !Ended(s.pc) {
      var e := Meets(s).0;
      NextIsNearer(s.pc, e, challenges(s.pc.n));
      Extended(s.es, e, challenges);
      RunIsHistory(HostStep(s, challenges(s.pc.n)), challenges);
    }
  }

  lemma Extended(es: seq<Event>, e: Event, challenges: Challenges)
    requires IsHistory(es, challenges) && Fits(After(es, challenges), e)
    ensures IsHistory(es + [e], challenges)
    ensures After(es + [e], challenges) == Next(After(es, challenges), e, challenges(Attempt(After(es, challenges))))
  {
    assert (es + [e])[..|es|] == es;
  }

  lemma EmptyHistory(challenges: Challenges)
    ensures IsHistory([], challenges) && After([], challenges) == Hello(0)
  {
  }

  // ---- exit safety on arbitrary input ----

  predicate EndsIn(s: seq<byte>, tail: seq<byte>) {
    |tail| <= |s| && s[|s| - |tail|..] == tail
  }

  /** From `a`, where the challenge of attempt `n` has just been sent, the echo of that challenge and
      then an Ok were read from the line, with RESYNC_COMPLETE sent in between; `t` is the end. */
  predicate GoesThrough(a: HostState, t: HostState, challenge: seq<byte>)
    requires |challenge| <= MAX_PAYLOAD
  {
    && EndsIn(a.sent, Message(REQ_RESYNC, challenge))
    && var echo := RecvMessage(a.items);
       && echo.Answered? && echo.msg == Message(ANS_RESYNC, challenge)
       && var ok := RecvMessage(echo.rest);
          && ok.Answered? && ok.msg == Message(ANS_OK, []) && t.items == ok.rest
          && t.sent == a.sent + Message(REQ_RESYNC_COMPLETE, [])
  }

  /** `a` is where the challenge of the attempt was sent, once `s` is past it; `items` is what there
      was to read at first. */
  ghost predicate OnTheWay(items: seq<Item>, a: HostState, s: HostState, challenges: Challenges)
    requires Challenging(challenges)
  {
    && Follows(items, s.items)
    && match s.pc
       case AwaitEcho(n) => a == s && EndsIn(s.sent, Message(REQ_RESYNC, challenges(n)))
       case Finishing(n) => Echoed(items, a, n, s.items, challenges(n)) && s.sent == a.sent
       case AwaitOk(n) =>
         Echoed(items, a, n, s.items, challenges(n)) && s.sent == a.sent + Message(REQ_RESYNC_COMPLETE, [])
       case Synced(n) => a.pc == AwaitEcho(n) && Follows(items, a.items) && GoesThrough(a, s, challenges(n))
       case _ => true
  }

  predicate Echoed(items: seq<Item>, a: HostState, n: nat, rest: seq<Item>, challenge: seq<byte>)
    requires |challenge| <= MAX_PAYLOAD
  {
    && a.pc == AwaitEcho(n) && Follows(items, a.items) && EndsIn(a.sent, Message(REQ_RESYNC, challenge))
    && RecvMessage(a.items) == Answered(Message(ANS_RESYNC, challenge), rest)
  }

  lemma MeetsFollows(s: HostState)
    requires !Ended(s.pc)
    ensures Follows(s.items, Meets(s).1)
  {
    hide RecvMessage, CommRecv;
    RecvMessageReads(s.items);
    CommRecvReads(s.items, 1);
  }

  /** An answer that passes is the frame of that type and payload. */
  lemma AnswerIsFrame(items: seq<Item>, mask: byte, payload: seq<byte>)
    requires RecvMessage(items).Answered? && IsAnswer(Got(RecvMessage(items).msg), mask, payload)
    ensures |payload| <= MAX_PAYLOAD && mask % 32 == 0 && RecvMessage(items).msg == Message(mask, payload)
  {
    hide RecvMessage, Message;
    AnswerSound(items);
  }

  lemma ChallengeSent(s: HostState, challenge: seq<byte>)
    requires s.pc.Challenge? && |challenge| <= MAX_PAYLOAD && HostStep(s, challenge).pc.AwaitEcho?
    ensures EndsIn(HostStep(s, challenge).sent, Message(REQ_RESYNC, challenge))
  {
    hide Message;
    var m := Message(REQ_RESYNC, challenge);
    assert (s.sent + m)[|s.sent|..] == m;
  }

  lemma EchoRead(s: HostState, challenge: seq<byte>)
    requires s.pc.AwaitEcho? && |challenge| <= MAX_PAYLOAD && HostStep(s, challenge).pc.Finishing?
    ensures var t := HostStep(s, challenge);
      RecvMessage(s.items) == Answered(Message(ANS_RESYNC, challenge), t.items) && t.sent == s.sent
  {
    hide Message, RecvMessage;
    AnswerIsFrame(s.items, ANS_RESYNC, challenge);
    assert s.sent + [] == s.sent;
  }

  lemma OkRead(s: HostState, challenge: seq<byte>)
    requires s.pc.AwaitOk? && |challenge| <= MAX_PAYLOAD && HostStep(s, challenge).pc.Synced?
    ensures var t := HostStep(s, challenge);
      RecvMessage(s.items) == Answered(Message(ANS_OK, []), t.items) && t.sent == s.sent
  {
    hide Message, RecvMessage;
    AnswerIsFrame(s.items, ANS_OK, []);
    assert s.sent + [] == s.sent;
  }

  lemma CompleteSent(s: HostState, challenge: seq<byte>)
    requires s.pc.Finishing? && |challenge| <= MAX_PAYLOAD && HostStep(s, challenge).pc.AwaitOk?
    ensures var t := HostStep(s, challenge);
      t.items == s.items && t.sent == s.sent + Message(REQ_RESYNC_COMPLETE, [])
  {
    hide Message;
  }

  /** The place after a step, as far as the way goes. */
  lemma PlaceAfter(s: HostState, challenge: seq<byte>)
    requires !Ended(s.pc) && |challenge| <= MAX_PAYLOAD
    ensures var pc := HostStep(s, challenge).pc;
      && (pc.AwaitEcho? ==> s.pc == Challenge(pc.n)) && (pc.Finishing? ==> s.pc == AwaitEcho(pc.n))
      && (pc.AwaitOk? ==> s.pc == Finishing(pc.n)) && (pc.Synced? ==> s.pc == AwaitOk(pc.n))
  {
    hide IsAnswer;
  }

  lemma WayOn(items: seq<Item>, a: HostState, s: HostState, challenges: Challenges) returns (b: HostState)
    requires Challenging(challenges) && !Ended(s.pc) && OnTheWay(items, a, s, challenges)
    ensures OnTheWay(items, b, HostStep(s, challenges(s.pc.n)), challenges)
  {
    hide HostStep, Meets, Next, EndsIn, RecvMessage, Message;
    var c := challenges(s.pc.n);
    var t := HostStep(s, c);
    StepRead(s, c);
    FollowsOn(items, s.items, t.items);
    PlaceAfter(s, c);
    b := if t.pc.AwaitEcho? then t else a;
    match t.pc {
      case AwaitEcho(_) => ChallengeSent(s, c);
      case Finishing(_) => EchoRead(s, c);
      case AwaitOk(_) => CompleteSent(s, c);
      case Synced(_) => OkRead(s, c);
      case _ =>
    }
  }

  lemma StepRead(s: HostState, challenge: seq<byte>)
    requires !Ended(s.pc) && |challenge| <= MAX_PAYLOAD
    ensures Follows(s.items, HostStep(s, challenge).items)
  {
    hide Meets, Next, Message;
    MeetsFollows(s);
  }

  lemma {:induction false} RunOn(items: seq<Item>, a: HostState, s: HostState, challenges: Challenges)
    returns (b: HostState)
    requires Challenging(challenges) && (!Ended(s.pc) ==> s.pc.n < MAX_RESYNC_TRIES)
      && OnTheWay(items, a, s, challenges)
    ensures OnTheWay(items, b, HostRun(s, challenges), challenges)
    decreases Ahead(s.pc), Undrained(s.pc)
  {
    hide OnTheWay, HostStep, Next;
    b := a;
    if !Ended(s.pc) {
      NextIsNearer(s.pc, Meets(s).0, challenges(s.pc.n));
      b := WayOn(items, a, s, challenges);
      StepPlace(s, challenges(s.pc.n));
      b := RunOn(items, b, HostStep(s, challenges(s.pc.n)), challenges);
    }
  }

  lemma StepPlace(s: HostState, challenge: seq<byte>)
    requires !Ended(s.pc) && |challenge| <= MAX_PAYLOAD
    ensures HostStep(s, challenge).pc == Next(s.pc, Meets(s).0, challenge)
  {
  }

  /** On whatever input: if `resync()` returns 1, then it sent the challenge of the attempt it is in,
      and read from the input after it its echo and then an Ok, each a frame of just these bytes. */
  lemma ResyncSafe(items: seq<Item>, accepts: seq<bool>, challenges: Challenges) returns (a: HostState)
    requires Challenging(challenges)
    ensures var t := HostRun(Started(items, accepts), challenges);
      t.pc.Synced? ==>
        && a.pc == AwaitEcho(t.pc.n) && Follows(items, a.items)
        && GoesThrough(a, t, challenges(t.pc.n)) && Confirmed(t.es, challenges(t.pc.n))
  {
    hide HostRun, IsHistory, After, Confirmed, GoesThrough;
    var s := Started(items, accepts);
    var t := HostRun(s, challenges);
    a := RunOn(items, s, s, challenges);
    EmptyHistory(challenges);
    RunIsHistory(s, challenges);
    if t.pc.Synced? {
      SyncedIsConfirmed(t.es, challenges);
    }
  }

  // ---- the code ----

  /** The sending half of the line; `accepts` says which sends go through, all once it is used up. */
  class Wire {
    var sent: seq<byte>
    var accepts: seq<bool>

    constructor (accepts: seq<bool>)
      ensures sent == [] && this.accepts == accepts
    {
      sent, this.accepts := [], accepts;
    }

    /** `comm_send`. */
    method Send(frame: seq<byte>) returns (ok: bool)
      modifies this
      ensures ok == SendOk(old(accepts)) && accepts == Later(old(accepts))
      ensures sent == old(sent) + if ok then frame else []
    {
      ok := accepts == [] || accepts[0];
      accepts := if accepts == [] then [] else accepts[1..];
      sent := sent + if ok then frame else [];
    }
  }

  /** The line is where the program is in `s`; `before` was sent before it began. */
  ghost predicate At(s: HostState, wire: Wire, port: Port, before: seq<byte>)
    reads wire, port
  {
    s.items == port.input && s.accepts == wire.accepts && wire.sent == before + s.sent
  }

  /** `resync()`; `challenges` stands for the random control sequences of the attempts. */
  method Resync(wire: Wire, port: Port, challenges: Challenges) returns (r: int)
    requires Challenging(challenges)
    modifies wire, port
    ensures var t := HostRun(Started(old(port.input), old(wire.accepts)), challenges);
      r == (if t.pc.Synced? then 1 else 0) && At(t, wire, port, old(wire.sent))
  {
    hide HostRun;
    ghost var start := Started(port.input, wire.accepts);
    ghost var s := start;
    assert At(s, wire, port, wire.sent) by {
      assert wire.sent + [] == wire.sent;
    }
    var i := 0;
    while i < MAX_RESYNC_TRIES
      invariant 0 <= i <= MAX_RESYNC_TRIES
      invariant s.pc == if i < MAX_RESYNC_TRIES then Hello(i) else GaveUp
      invariant At(s, wire, port, old(wire.sent)) && HostRun(s, challenges) == HostRun(start, challenges)
    {
      var ok;
      ok, s := TryResync(wire, port, challenges, i, s, old(wire.sent));
      if ok {
        RunEnds(s, challenges);
        return 1;
      }
      i := i + 1;
    }
    RunEnds(s, challenges);
    r := 0;
  }

  lemma RunEnds(s: HostState, challenges: Challenges)
    requires Challenging(challenges) && Ended(s.pc)
    ensures HostRun(s, challenges) == s
  {
  }

  lemma RunStep(s: HostState, challenges: Challenges)
    requires Challenging(challenges) && !Ended(s.pc) && s.pc.n < MAX_RESYNC_TRIES
    ensures var t := HostStep(s, challenges(s.pc.n));
      (!Ended(t.pc) ==> t.pc.n < MAX_RESYNC_TRIES) && HostRun(s, challenges) == HostRun(t, challenges)
  {
    hide HostStep, Next;
    NextIsNearer(s.pc, Meets(s).0, challenges(s.pc.n));
    StepPlace(s, challenges(s.pc.n));
  }

  /** One attempt, from the state `s` of the program to `t`: `continue` in the source is `return false` here. */
  method TryResync(wire: Wire, port: Port, challenges: Challenges, i: nat, ghost s: HostState, ghost before: seq<byte>)
    returns (ok: bool, ghost t: HostState)
    requires Challenging(challenges) && i < MAX_RESYNC_TRIES && s.pc == Hello(i) && At(s, wire, port, before)
    modifies wire, port
    ensures t.pc == (if ok then Synced(i) else Retry(i)) && At(t, wire, port, before)
    ensures HostRun(t, challenges) == HostRun(s, challenges)
  {
    hide HostRun, HostStep, At;
    var sent, answered, paused;
    sent, t := SendStep(wire, port, challenges, s, before, Hello(i));
    if !sent {
      return false, t;
    }
    paused, t := Drain(port, wire, challenges, i, t, before);
    if !paused {
      return false, t;
    }
    sent, t := SendStep(wire, port, challenges, t, before, Again(i));
    if !sent {
      return false, t;
    }
    answered, t := Expect(port, wire, challenges, ANS_RESYNC, [], t, before, AwaitEmpty(i));
    if !answered {
      return false, t;
    }
    sent, t := SendStep(wire, port, challenges, t, before, Challenge(i));
    if !sent {
      return false, t;
    }
    answered, t := Expect(port, wire, challenges, ANS_RESYNC, challenges(i), t, before, AwaitEcho(i));
    if !answered {
      return false, t;
    }
    sent, t := SendStep(wire, port, challenges, t, before, Finishing(i));
    if !sent {
      return false, t;
    }
    ok, t := Expect(port, wire, challenges, ANS_OK, [], t, before, AwaitOk(i));
  }

  /** `comm_message` and `comm_send` at a sending place. */
  method SendStep(wire: Wire, port: Port, challenges: Challenges, ghost s: HostState, ghost before: seq<byte>, pc: Pc)
    returns (ok: bool, ghost t: HostState)
    requires Challenging(challenges) && s.pc == pc && Sends(pc) && pc.n < MAX_RESYNC_TRIES && At(s, wire, port, before)
    modifies wire
    ensures t == HostStep(s, challenges(pc.n)) && At(t, wire, port, before)
    ensures t.pc == Next(pc, SendDone(ok), challenges(pc.n)) && HostRun(t, challenges) == HostRun(s, challenges)
  {
    hide Message, HostRun;
    ok := wire.Send(FrameToSend(pc, challenges(pc.n)));
    t := HostStep(s, challenges(pc.n));
    RunStep(s, challenges);
    assert before + s.sent + (if ok then FrameToSend(pc, challenges(pc.n)) else []) == before + t.sent;
  }

  /** Reads away what is on the line until it pauses, or gives the attempt up. */
  method Drain(port: Port, wire: Wire, challenges: Challenges, i: nat, ghost s: HostState, ghost before: seq<byte>)
    returns (paused: bool, ghost t: HostState)
    requires Challenging(challenges) && i < MAX_RESYNC_TRIES && s.pc == Draining(i, 0) && At(s, wire, port, before)
    modifies port
    ensures t.pc == (if paused then Again(i) else Retry(i)) && At(t, wire, port, before)
    ensures HostRun(t, challenges) == HostRun(s, challenges)
  {
    hide CommRecv, HostRun;
    t := s;
    var g := 0;
    while g < MAX_RESYNC_GARBAGE
      invariant 0 <= g <= MAX_RESYNC_GARBAGE && At(t, wire, port, before)
      invariant t.pc == if g < MAX_RESYNC_GARBAGE then Draining(i, g) else Retry(i)
      invariant HostRun(t, challenges) == HostRun(s, challenges)
    {
      var got := port.CommRecvBytes(1);
      RunStep(t, challenges);
      t := HostStep(t, challenges(i));
      assert before + t.sent + [] == before + t.sent;
      if got == [] {
        return true, t;
      }
      g := g + 1;
    }
    paused := false;
  }

  /** Receives a message and looks at its size, type and payload. */
  method Expect(port: Port, wire: Wire, challenges: Challenges, mask: byte, payload: seq<byte>,
                ghost s: HostState, ghost before: seq<byte>, ghost pc: Pc)
    returns (ok: bool, ghost t: HostState)
    requires Challenging(challenges) && s.pc == pc && At(s, wire, port, before)
    requires match pc
      case AwaitEmpty(n) => n < MAX_RESYNC_TRIES && mask == ANS_RESYNC && payload == []
      case AwaitEcho(n) => n < MAX_RESYNC_TRIES && mask == ANS_RESYNC && payload == challenges(n)
      case AwaitOk(n) => n < MAX_RESYNC_TRIES && mask == ANS_OK && payload == []
      case _ => false
    modifies port
    ensures t.pc ==
      if !ok then Retry(pc.n)
      else if pc.AwaitEmpty? then Challenge(pc.n) else if pc.AwaitEcho? then Finishing(pc.n) else Synced(pc.n)
    ensures At(t, wire, port, before) && HostRun(t, challenges) == HostRun(s, challenges)
  {
    hide RecvMessage, HostRun;
    var received, msg := CommRecvMessage(port);
    RunStep(s, challenges);
    t := HostStep(s, challenges(pc.n));
    assert before + s.sent + [] == before + t.sent;
    if !received || |msg| != |payload| + 2 || TypeBits(msg[0]) != mask {
      return false, t;
    }
    var g := 0;
    while g < |payload| && msg[1 + g] == payload[g]
      invariant 0 <= g <= |payload| && msg[1..1 + g] == payload[..g]
    {
      assert msg[1..1 + g + 1] == msg[1..1 + g] + [msg[1 + g]] && payload[..g + 1] == payload[..g] + [payload[g]];
      g := g + 1;
    }
    ok := g == |payload|;
    assert ok <==> msg[1..|msg| - 1] == payload by {
      if g < |payload| {
        assert msg[1..|msg| - 1][g] == msg[1 + g] != payload[g];
      } else {
        assert payload[..g] == payload;
      }
    }
  }

  // ---- reading an ATR in parts ----

  /** Outcome of reading an ATR. `Overrun`: a part is longer than what remains, so that the source
      writes behind its buffer and its 8-bit count of the remainder wraps around. */
  datatype AtrRead = Complete(atr: seq<byte>, rest: seq<Item>) | Failed(rest: seq<Item>) | Overrun(rest: seq<Item>)

  /** `rem` bytes are still to come after `got`. */
  function ReadParts(items: seq<Item>, rem: nat, got: seq<byte>): AtrRead
    decreases |items|
  {
    if rem == 0 then Complete(got, items)
    else
      match RecvMessage(items)
      case NoAnswer(rest) => Failed(rest)
      case Answered(m, rest) =>
        var part := m[1..|m| - 1];
        if TypeBits(m[0]) != ANS_CARD_PRESENT then Failed(rest)
        else if |part| > rem then Overrun(rest)
        else ReadParts(rest, rem - |part|, got + part)
  }

  function ReadAtr(items: seq<Item>): AtrRead {
    match RecvMessage(items)
    case NoAnswer(rest) => Failed(rest)
    case Answered(m, rest) =>
      if TypeBits(m[0]) != ANS_CARD_PRESENT then Failed(rest) else ReadParts(rest, m[1], [])
  }

  /** The frames of a row of parts. */
  function PartFrames(parts: seq<seq<byte>>): seq<byte>
    requires forall p | p in parts :: |p| <= MAX_PAYLOAD
  {
    if parts == [] then [] else Message(ANS_CARD_PRESENT, parts[0]) + PartFrames(parts[1..])
  }

  /** Some first parts make up exactly `n` bytes. */
  ghost predicate Reaches(parts: seq<seq<byte>>, n: nat) {
    exists k :: 0 <= k <= |parts| && |Concat(parts[..k])| == n
  }

  lemma ReachesLater(parts: seq<seq<byte>>, n: nat)
    requires n > 0 && parts != []
    ensures Reaches(parts, n) <==> |parts[0]| <= n && Reaches(parts[1..], n - |parts[0]|)
  {
    var p := |parts[0]|;
    if Reaches(parts, n) {
      var k :| 0 <= k <= |parts| && |Concat(parts[..k])| == n;
      assert parts[..k][0] == parts[0] && parts[..k][1..] == parts[1..][..k - 1];
      assert |Concat(parts[1..][..k - 1])| == n - p;
    }
    if p <= n && Reaches(parts[1..], n - p) {
      var k :| 0 <= k <= |parts[1..]| && |Concat(parts[1..][..k])| == n - p;
      assert parts[..k + 1][0] == parts[0] && parts[..k + 1][1..] == parts[1..][..k];
      assert |Concat(parts[..k + 1])| == n;
    }
  }

  /** Whatever parts a device sends, if they are enough: the ATR is complete exactly if some first
      parts make up its length, and otherwise, exactly then, the part that goes beyond it makes the
      source overrun its buffer. */
  lemma {:induction false} OverrunExactly(parts: seq<seq<byte>>, rem: nat, got: seq<byte>, rest: seq<Item>)
    requires (forall p | p in parts :: |p| <= MAX_PAYLOAD) && |Concat(parts)| >= rem
    ensures var r := ReadParts(Items(PartFrames(parts)) + rest, rem, got);
      if Reaches(parts, rem) then r.Complete? && |r.atr| == |got| + rem && r.atr <= got + Concat(parts)
      else r.Overrun?
    decreases |parts|
  {
    hide RecvMessage, Message, Reaches, ReadParts;
    NothingMissing(Items(PartFrames(parts)) + rest, got);
    if rem == 0 {
      ReachesNothing(parts);
      assert got <= got + Concat(parts);
    } else {
      var p := parts[0];
      PartsStep(parts, rem, got, rest);
      ReachesLater(parts, rem);
      if |p| <= rem {
        OverrunExactly(parts[1..], rem - |p|, got + p, rest);
        assert got + p + Concat(parts[1..]) == got + Concat(parts);
      }
    }
  }

  lemma NothingMissing(items: seq<Item>, got: seq<byte>)
    ensures ReadParts(items, 0, got) == Complete(got, items)
  {
  }

  lemma PartsStep(parts: seq<seq<byte>>, rem: nat, got: seq<byte>, rest: seq<Item>)
    requires (forall p | p in parts :: |p| <= MAX_PAYLOAD) && parts != [] && rem > 0
    ensures var p := parts[0];
      var later := Items(PartFrames(parts[1..])) + rest;
      ReadParts(Items(PartFrames(parts)) + rest, rem, got) ==
        if |p| > rem then Overrun(later) else ReadParts(later, rem - |p|, got + p)
  {
    hide Message, ReadParts;
    var m := Message(ANS_CARD_PRESENT, parts[0]);
    var later := Items(PartFrames(parts[1..])) + rest;
    ItemsConcat(m, PartFrames(parts[1..]));
    assert Items(PartFrames(parts)) + rest == Items(m) + later;
    PartTaken(parts[0], later, rem, got);
  }

  lemma PartTaken(p: seq<byte>, later: seq<Item>, rem: nat, got: seq<byte>)
    requires |p| <= MAX_PAYLOAD && rem > 0
    ensures ReadParts(Items(Message(ANS_CARD_PRESENT, p)) + later, rem, got) ==
      if |p| > rem then Overrun(later) else ReadParts(later, rem - |p|, got + p)
  {
    hide RecvMessage, Message;
    AnswerRoundTrip(ANS_CARD_PRESENT, p, later);
    MessageVerifies(ANS_CARD_PRESENT, p);
  }

  lemma ReachesNothing(parts: seq<seq<byte>>)
    ensures Reaches(parts, 0)
  {
    assert |Concat(parts[..0])| == 0;
  }

  /** The loop that collects the parts. */
  method CollectParts(port: Port, atrLen: byte) returns (r: AtrRead)
    modifies port
    ensures r == ReadParts(old(port.input), atrLen, []) && port.input == r.rest
  {
    hide RecvMessage;
    ghost var items := port.input;
    var atrBuff := new byte[atrLen];
    var rem: int := atrLen;
    while rem > 0
      invariant 0 <= rem <= atrLen
      invariant ReadParts(items, atrLen, []) == ReadParts(port.input, rem, atrBuff[..atrLen - rem])
      decreases |port.input|
    {
      var ok, msg := CommRecvMessage(port);
      if !ok || TypeBits(msg[0]) != ANS_CARD_PRESENT {
        return Failed(port.input);
      }
      var partLen := |msg| - 2;
      if partLen > rem {
        return Overrun(port.input);
      }
      ghost var before := atrBuff[..atrLen - rem];
      for i := 0 to partLen
        invariant atrBuff[..atrLen - rem + i] == before + msg[1..1 + i]
        modifies atrBuff
      {
        atrBuff[atrLen - rem + i] := msg[1 + i];
        assert atrBuff[..atrLen - rem + i + 1] == atrBuff[..atrLen - rem + i] + [msg[1 + i]];
        assert msg[1..1 + i + 1] == msg[1..1 + i] + [msg[1 + i]];
      }
      rem := rem - partLen;
    }
    r := Complete(atrBuff[..], port.input);
  }

  const MAX_CMD_TRIES: nat := 3
  const IFD_ERROR_INVALID_SLOT: int := -3

  /** How `cardemu_card_reset` ends; what was sent, and what the line is left with. */
  datatype ResetEnd = ResetEnd(outcome: AtrOutcome, sent: seq<byte>, items: seq<Item>, accepts: seq<bool>)

  datatype AtrOutcome = Delivered(atr: seq<byte>) | Undelivered | Overran

  ghost predicate EachChallenging(challenges: nat -> Challenges) {
    forall n :: Challenging(challenges(n))
  }

  /** One try: the request, and the ATR. */
  function ResetTry(items: seq<Item>, accepts: seq<bool>): ResetEnd {
    if !SendOk(accepts) then ResetEnd(Undelivered, [], items, Later(accepts))
    else
      var request := Message(REQ_CARD_STATUS, [1]);
      match ReadAtr(items)
      case Complete(atr, rest) => ResetEnd(Delivered(atr), request, rest, Later(accepts))
      case Failed(rest) => ResetEnd(Undelivered, request, rest, Later(accepts))
      case Overrun(rest) => ResetEnd(Overran, request, rest, Later(accepts))
  }

  /** A try, and the resync after one that fails; whether another try follows. */
  function ResetRound(items: seq<Item>, accepts: seq<bool>, challenges: Challenges): (r: (ResetEnd, bool))
    requires Challenging(challenges)
  {
    var e := ResetTry(items, accepts);
    if !e.outcome.Undelivered? then (e, false)
    else
      var h := HostRun(Started(e.items, e.accepts), challenges);
      (ResetEnd(Undelivered, e.sent + h.sent, h.items, h.accepts), h.pc.Synced?)
  }

  /** The tries from `tr` on; a resync that fails ends them. */
  function ResetRun(items: seq<Item>, accepts: seq<bool>, challenges: nat -> Challenges, tr: nat): ResetEnd
    requires EachChallenging(challenges)
    decreases if tr < MAX_CMD_TRIES then MAX_CMD_TRIES - tr else 0
  {
    if tr >= MAX_CMD_TRIES then ResetEnd(Undelivered, [], items, accepts)
    else
      var (e, again) := ResetRound(items, accepts, challenges(tr));
      if !again then e
      else
        var more := ResetRun(e.items, e.accepts, challenges, tr + 1);
        more.(sent := e.sent + more.sent)
  }

  lemma ResetUnfolds(items: seq<Item>, accepts: seq<bool>, challenges: nat -> Challenges, tr: nat)
    requires EachChallenging(challenges) && tr < MAX_CMD_TRIES
    ensures Challenging(challenges(tr))
    ensures var all, (e, again) := ResetRun(items, accepts, challenges, tr), ResetRound(items, accepts, challenges(tr));
      if !again then all == e
      else
        var more := ResetRun(e.items, e.accepts, challenges, tr + 1);
        all.outcome == more.outcome && all.sent == e.sent + more.sent && all.items == more.items
  {
    hide ResetRound;
  }

  lemma ResetExhausted(items: seq<Item>, accepts: seq<bool>, challenges: nat -> Challenges)
    requires EachChallenging(challenges)
    ensures ResetRun(items, accepts, challenges, MAX_CMD_TRIES) == ResetEnd(Undelivered, [], items, accepts)
  {
  }

  /** One try of the loop in `cardemu_card_reset`, up to the copy. */
  method TryReset(wire: Wire, port: Port) returns (outcome: AtrOutcome)
    modifies wire, port
    ensures var e := ResetTry(old(port.input), old(wire.accepts));
      outcome == e.outcome && port.input == e.items && wire.accepts == e.accepts && wire.sent == old(wire.sent) + e.sent
  {
    hide RecvMessage, Message, ReadParts;
    var sent := wire.Send(Message(REQ_CARD_STATUS, [1]));
    if !sent {
      return Undelivered;
    }
    var ok, msg := CommRecvMessage(port);
    if !ok || TypeBits(msg[0]) != ANS_CARD_PRESENT {
      return Undelivered;
    }
    var r := CollectParts(port, msg[1]);
    match r
    case Complete(atr, _) => outcome := Delivered(atr);
    case Failed(_) => outcome := Undelivered;
    case Overrun(_) => outcome := Overran;
  }

  /** The try and the resync in the body of the loop. */
  method TryAndResync(wire: Wire, port: Port, challenges: Challenges) returns (outcome: AtrOutcome, again: bool)
    requires Challenging(challenges)
    modifies wire, port
    ensures var (e, more) := ResetRound(old(port.input), old(wire.accepts), challenges);
      && outcome == e.outcome && again == more
      && port.input == e.items && wire.accepts == e.accepts && wire.sent == old(wire.sent) + e.sent
  {
    hide HostRun, ResetTry;
    outcome := TryReset(wire, port);
    if !outcome.Undelivered? {
      return outcome, false;
    }
    var synced := Resync(wire, port, challenges);
    again := synced == 1;
  }

  /** The loop of `cardemu_card_reset`. */
  method ResetLoop(wire: Wire, port: Port, challenges: nat -> Challenges) returns (outcome: AtrOutcome)
    requires EachChallenging(challenges)
    modifies wire, port
    ensures var e := ResetRun(old(port.input), old(wire.accepts), challenges, 0);
      outcome == e.outcome && wire.sent == old(wire.sent) + e.sent && port.input == e.items
  {
    hide ResetRound, ResetRun, EachChallenging, Challenging;
    ghost var before := wire.sent;
    ghost var all := ResetRun(port.input, wire.accepts, challenges, 0);
    ghost var done: seq<byte> := [];
    var tr := 0;
    while tr < MAX_CMD_TRIES
      invariant 0 <= tr <= MAX_CMD_TRIES && wire.sent == before + done
      invariant var more := ResetRun(port.input, wire.accepts, challenges, tr);
        all.outcome == more.outcome && all.sent == done + more.sent && all.items == more.items
    {
      ResetUnfolds(port.input, wire.accepts, challenges, tr);
      ghost var e := ResetRound(port.input, wire.accepts, challenges(tr)).0;
      var again;
      outcome, again := TryAndResync(wire, port, challenges(tr));
      assert before + done + e.sent == before + (done + e.sent);
      done := done + e.sent;
      if !again {
        return;
      }
      tr := tr + 1;
    }
    ResetExhausted(port.input, wire.accepts, challenges);
    outcome := Undelivered;
  }

  /** `cardemu_card_reset`: the first `size` bytes of the ATR, or an error. `overran` says that the
      source has written behind its buffer; the model ends there. */
  method CardReset(wire: Wire, port: Port, slot: int, size: nat, challenges: nat -> Challenges)
    returns (rc: int, atr: seq<byte>, overran: bool)
    requires EachChallenging(challenges)
    modifies wire, port
    ensures slot != 0 ==>
      && rc == -3 && !overran
      && wire.sent == old(wire.sent) && port.input == old(port.input)
    ensures slot == 0 ==>
      var e := ResetRun(old(port.input), old(wire.accepts), challenges, 0);
      && overran == e.outcome.Overran? && wire.sent == old(wire.sent) + e.sent && port.input == e.items
      && match e.outcome
         case Delivered(a) => rc == Min(size, |a|) && atr == a[..rc]
         case _ => rc == -1 && atr == []
  {
    hide ResetRun, EachChallenging;
    if slot != 0 {
      return IFD_ERROR_INVALID_SLOT, [], false;
    }
    var outcome := ResetLoop(wire, port, challenges);
    match outcome
    case Delivered(a) =>
      rc := Min(size, |a|);
      return rc, a[..rc], false;
    case Undelivered => return -1, [], false;
    case Overran => return -1, [], true;
  }
}
