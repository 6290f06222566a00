/** The T=1 protocol object of proto-t1.c: its state and the operations on it. */
module T1Protocol {
  import opened Bytes
  import opened Checksum
  import opened T1Block
  import opened T1Safety
  import opened T1Session

  /** The reader at the other end: the blocks sent to it, and what it will deliver, one delivery a
      block. When the deliveries are used up the line stays silent. `waits` are the timeouts it is
      asked to observe. */
  class Link {
    var sent: seq<seq<byte>>
    var answers: seq<Raw>
    var incoming: Raw
    var waits: seq<nat>

    constructor (answers: seq<Raw>)
      ensures sent == [] && this.answers == answers && incoming == Silence && waits == []
    {
      sent, this.answers, incoming, waits := [], answers, Silence, [];
    }

    /** `ifd_send_command` */
    method Send(block: seq<byte>)
      modifies this
      ensures sent == old(sent) + [block] && waits == old(waits)
      ensures incoming == NextOf(old(answers)) && answers == RestOf(old(answers))
    {
      sent := sent + [block];
      if answers == [] {
        incoming := Silence;
      } else {
        incoming := answers[0];
        answers := answers[1..];
      }
    }

    /** `ifd_recv_response` of a device that frames blocks itself: up to `n` bytes. */
    method ReceiveBlock(n: nat, timeout: nat) returns (ok: bool, data: seq<byte>)
      modifies this`waits
      ensures waits == old(waits) + [timeout]
      ensures ok == incoming.Delivery? && data == if ok then incoming.data[..Min(|incoming.data|, n)] else []
    {
      waits := waits + [timeout];
      match incoming
      case Silence => return false, [];
      case Delivery(d) => return true, d[..Min(|d|, n)];
    }

    /** `ifd_recv_response` of a serial device: all `n` bytes or none. */
    method ReceiveBytes(n: nat, timeout: nat) returns (ok: bool, data: seq<byte>)
      modifies this`waits, this`incoming
      ensures waits == old(waits) + [timeout]
      ensures ok == (old(incoming).Delivery? && |old(incoming).data| >= n)
      ensures if ok then data == old(incoming).data[..n] && incoming == Delivery(old(incoming).data[n..])
              else data == [] && incoming == old(incoming)
    {
      waits := waits + [timeout];
      match incoming
      case Silence => return false, [];
      case Delivery(d) =>
        if |d| < n {
          return false, [];
        }
        data := d[..n];
        incoming := Delivery(d[n..]);
        ok := true;
    }
  }

  function NextOf(answers: seq<Raw>): Raw {
    if answers == [] then Silence else answers[0]
  }

  function RestOf(answers: seq<Raw>): seq<Raw> {
    if answers == [] then [] else answers[1..]
  }

  lemma RunUnfolds(cfg: Config, s: Session, answers: seq<Raw>)
    requires |s.buf| >= BUFFER_SIZE
    ensures var next := Step(cfg, s, NextOf(answers));
      && Run(cfg, s, answers) == (if next.Go? then Run(cfg, next.s, RestOf(answers)) else next)
      && Unused(cfg, s, answers) == (if next.Go? then Unused(cfg, next.s, RestOf(answers)) else RestOf(answers))
      && (next.Go? ==> answers != [])
  {
    hide Receive, OnR, OnI, OnS, Resync, Verify;
  }

  lemma StartIs(cfg: Config, ns: bit, nr: bit, ifsc: nat, wtx: nat, buf: seq<byte>, cmd: seq<byte>)
    ensures Start(cfg, ns, nr, ifsc, wtx, buf, cmd)
         == SendI(cfg, Session(Sending, ns, nr, ifsc, wtx, cfg.tries, RESYNCS, 0, 0, cmd, [], buf, [], []))
  {
  }

  lemma NoBlocks()
    ensures BlocksSent([]) == []
  {
  }

  /** The blocks among the events of a run. */
  ghost function BlocksSent(log: seq<Event>): seq<seq<byte>> {
    if log == [] then []
    else
      var e := log[|log| - 1];
      BlocksSent(log[..|log| - 1]) + (if e.Sent? then [e.block] else [])
  }

  /** A session with the block it is about to send counted in. */
  ghost predicate Extends(s: Session, t: Session) {
    BlocksSent(t.log) == BlocksSent(s.log) + [t.out]
  }

  lemma PutSends(cfg: Config, s: Session, pcb: byte, data: seq<byte>)
    ensures Extends(s, Put(cfg, s, pcb, data))
  {
    hide Build;
    var t := Put(cfg, s, pcb, data);
    assert t.log[..|s.log|] == s.log;
  }

  lemma QuietEvent(log: seq<Event>, e: Event)
    requires !e.Sent?
    ensures BlocksSent(log + [e]) == BlocksSent(log)
  {
    assert (log + [e])[..|log|] == log;
  }

  lemma ResyncSends(cfg: Config, s: Session)
    ensures var r := Resync(cfg, s);
      if r.Go? then Extends(s, r.s) else BlocksSent(r.s.log) == BlocksSent(s.log)
  {
    hide Put;
    if s.resyncs > 0 {
      PutSends(cfg, s.(resyncs := s.resyncs - 1, ns := 0, nr := 0), S_BLOCK + S_RESYNC, []);
    }
  }

  lemma OnRSends(cfg: Config, s: Session, pcb: byte)
    ensures var r := OnR(cfg, s, pcb);
      if r.Go? then Extends(s, r.s) else BlocksSent(r.s.log) == BlocksSent(s.log)
  {
    hide Put;
    if LowNibble(pcb) != 0 {
      ResyncSends(cfg, s);
    } else if s.phase == Receiving {
      PutSends(cfg, s, R_BLOCK, []);
    } else {
      QuietEvent(s.log, Acked);
      var t := if SeqOf(pcb) != s.ns
               then Ack(s).(sentLength := s.sentLength + s.lastSend, ns := Flip(s.ns))
               else s;
      if t.left == [] {
        ResyncSends(cfg, t);
      } else {
        PutSends(cfg, t, I_BLOCK, t.left);
      }
    }
  }

  lemma AcceptSends(cfg: Config, t: Session, data: seq<byte>, more: bool)
    ensures var r := Accept(cfg, t, data, more);
      if r.Go? then Extends(t, r.s) else BlocksSent(r.s.log) == BlocksSent(t.log)
  {
    hide Put;
    var u := t.(nr := Flip(t.nr));
    if |u.rbuf| + |data| <= cfg.room {
      QuietEvent(u.log, Stored);
      PutSends(cfg, u.(rbuf := u.rbuf + data, log := u.log + [Stored]), R_BLOCK, []);
    }
  }

  lemma OnISends(cfg: Config, s: Session, pcb: byte)
    requires |s.buf| >= BUFFER_SIZE
    ensures var r := OnI(cfg, s, pcb);
      if r.Go? then Extends(s, r.s) else BlocksSent(r.s.log) == BlocksSent(s.log)
  {
    hide Put, Accept;
    QuietEvent(s.log, Acked);
    var t := (if s.phase == Sending then Ack(s).(ns := Flip(s.ns)) else s).(phase := Receiving);
    PutSends(cfg, t, R_BLOCK + OTHER_ERROR, []);
    AcceptSends(cfg, t, s.buf[DATA..DATA + s.buf[LEN]], HasMore(pcb));
  }

  lemma OnRequestSends(cfg: Config, s: Session, pcb: byte)
    requires |s.buf| >= BUFFER_SIZE
    ensures var r := OnRequest(cfg, s, pcb);
      if r.Go? then Extends(s, r.s) else BlocksSent(r.s.log) == BlocksSent(s.log)
  {
    hide Put;
    var size := s.buf[DATA];
    var answer := S_BLOCK + S_RESPONSE + LowNibble(pcb);
    match LowNibble(pcb)
    case 2 =>
      PutSends(cfg, s, answer, []);
    case 1 =>
      if size == 0 {
        ResyncSends(cfg, s);
      } else {
        PutSends(cfg, SetIfsc(s, size), answer, [size]);
      }
    case 3 =>
      PutSends(cfg, s.(wtx := size), answer, [size]);
    case _ =>
      ResyncSends(cfg, s);
  }

  lemma OnSSends(cfg: Config, s: Session, pcb: byte)
    requires |s.buf| >= BUFFER_SIZE
    ensures var r := OnS(cfg, s, pcb);
      if r.Go? then Extends(s, r.s) else BlocksSent(r.s.log) == BlocksSent(s.log)
  {
    hide Put;
    if !IsResponse(pcb) {
      OnRequestSends(cfg, s, pcb);
    } else if s.phase == Resynch {
      QuietEvent(s.log, Resynced);
      PutSends(cfg, Restarted(cfg, s), I_BLOCK, s.left);
    } else {
      ResyncSends(cfg, s);
    }
  }

  /** Every turn that goes on has built exactly one block. */
  lemma StepSends(cfg: Config, s: Session, raw: Raw)
    requires |s.buf| >= BUFFER_SIZE
    ensures var r := Step(cfg, s, raw);
      if r.Go? then Extends(s, r.s) else BlocksSent(r.s.log) == BlocksSent(s.log)
  {
    hide Put, OnR, OnI, OnS, Resync;
    var t := s.(retries := Decrement(s.retries), wtx := 0);
    match Receive(cfg.line, raw, t.buf)
    case Lost =>
    case Got(buf, n) =>
      var u := t.(buf := buf);
      if !Verify(cfg.line.check, buf, n) {
        ResyncSends(cfg, u);
        PutSends(cfg, u, R_BLOCK + EDC_ERROR, []);
      } else {
        var v := Heed(u, raw.data);
        QuietEvent(u.log, Heard(buf[PCB], buf[DATA], buf[DATA..DATA + buf[LEN]], raw.data));
        match TypeOf(buf[PCB])
        case RBlock => OnRSends(cfg, v, buf[PCB]);
        case IBlock => OnISends(cfg, v, buf[PCB]);
        case SBlock => OnSSends(cfg, v, buf[PCB]);
      }
  }

  datatype Param = RecvTimeout | BlockOriented | ChecksumLrc | ChecksumCrc | Ifsc | Ifsd | Unsupported

  /** The local variables of one `t1_transceive` call. */
  class Call {
    var tries: nat
    var resyncs: nat
    var sentLength: nat
    var lastSend: nat
    var left: seq<byte>
    var rcv: seq<byte>
    var buf: seq<byte>
    var out: seq<byte>
    ghost var log: seq<Event>

    constructor (cmd: seq<byte>, sdata: seq<byte>, retries: nat)
      ensures tries == retries && resyncs == RESYNCS && sentLength == 0 && lastSend == 0
      ensures left == cmd && rcv == [] && buf == sdata && out == [] && log == []
    {
      tries, resyncs, sentLength, lastSend := retries, RESYNCS, 0, 0;
      left, rcv, buf, out, log := cmd, [], sdata, [], [];
    }

    /** Takes the acknowledged bytes off the send buffer. */
    method DropSent()
      modifies this
      ensures tries == old(tries) && resyncs == old(resyncs) && sentLength == old(sentLength)
      ensures rcv == old(rcv) && buf == old(buf) && out == old(out) && lastSend == 0
      ensures 0 < old(lastSend) <= |old(left)| ==> left == old(left)[old(lastSend)..] && log == old(log) + [Acked]
      ensures !(0 < old(lastSend) <= |old(left)|) ==> left == old(left) && log == old(log)
    {
      if lastSend <= |left| {
        ghost var acked := lastSend > 0;
        left := left[lastSend..];
        log := if acked then log + [Acked] else log;
      }
      lastSend := 0;
    }
  }

  /** The request `t1_resynchronize` sends: always four bytes, whatever the checksum. */
  function ResyncRequest(check: Check, nad: byte): (b: seq<byte>)
    ensures |b| == 4
  {
    Frame(check, nad, S_BLOCK + S_RESYNC, [])[..4]
  }

  /** What asking for a resync up to `tries` times comes to: whether a request was answered, with only
      four-byte deliveries before it, how many were sent, and what the line has still to deliver. */
  datatype Asked = Asked(answered: bool, requests: nat, rest: seq<Raw>)

  function AskForResync(line: Line, nad: byte, answers: seq<Raw>, tries: nat): Asked {
    if tries == 0 then Asked(false, 0, answers)
    else
      var rest := RestOf(answers);
      match ReceiveInto(line, NextOf(answers), ResyncRequest(line.check, nad), 4)
      case Lost => Asked(false, 1, rest)
      case Got(b, n) =>
        if n != 4 then Asked(false, 1, rest)
        else if Verify(line.check, b, 4) && b[PCB] == S_BLOCK + S_RESPONSE + S_RESYNC then Asked(true, 1, rest)
        else
          var more := AskForResync(line, nad, rest, tries - 1);
          more.(requests := more.requests + 1)
  }

  lemma NoneLeft(line: Line, nad: byte)
    ensures forall answers :: AskForResync(line, nad, answers, 0) == Asked(false, 0, answers)
  {
  }

  lemma AskUnfolds(line: Line, nad: byte, answers: seq<Raw>, tries: nat)
    requires tries > 0
    ensures var a, rest := AskForResync(line, nad, answers, tries), RestOf(answers);
      var r := ReceiveInto(line, NextOf(answers), ResyncRequest(line.check, nad), 4);
      if r.Lost? || r.n != 4 then a == Asked(false, 1, rest)
      else if Verify(line.check, r.buf, 4) && r.buf[PCB] == S_BLOCK + S_RESPONSE + S_RESYNC
        then a == Asked(true, 1, rest)
      else
        var more := AskForResync(line, nad, rest, tries - 1);
        a.answered == more.answered && a.requests == more.requests + 1 && a.rest == more.rest
  {
    hide ReceiveInto, Verify;
  }

  /** How `t1_negotiate_ifsd` ends: the card agrees, it does not, or the line is lost; how many
      requests were sent; and what the line has still to deliver. */
  datatype Verdict = Agreed(n: nat) | Refused | CutOff

  datatype Negotiation = Negotiation(verdict: Verdict, requests: nat, rest: seq<Raw>)

  function Negotiate(line: Line, retries: nat, ifsd: nat, out: seq<byte>, buf: seq<byte>, answers: seq<Raw>)
    : Negotiation
    requires |buf| >= BUFFER_SIZE
    decreases |answers|
  {
    var rest := RestOf(answers);
    match Receive(line, NextOf(answers), Overlay(buf, out))
    case Lost => Negotiation(CutOff, 1, rest)
    case Got(b, n) =>
      if Verify(line.check, b, n) && TypeOf(b[PCB]).SBlock? && LowNibble(b[PCB]) == S_IFS && IsResponse(b[PCB]) then
        Negotiation(if b[LEN] == 1 && b[DATA] == ifsd then Agreed(n) else Refused, 1, rest)
      else if retries == 0 then Negotiation(Refused, 1, rest)
      else
        var more := Negotiate(line, retries, ifsd, out, b, rest);
        more.(requests := more.requests + 1)
  }

  lemma NegotiateUnfolds(line: Line, retries: nat, ifsd: nat, out: seq<byte>, buf: seq<byte>, answers: seq<Raw>)
    requires |buf| >= BUFFER_SIZE
    ensures var a, rest := Negotiate(line, retries, ifsd, out, buf, answers), RestOf(answers);
      var r := Receive(line, NextOf(answers), Overlay(buf, out));
      if r.Lost? then a == Negotiation(CutOff, 1, rest)
      else if Verify(line.check, r.buf, r.n) && TypeOf(r.buf[PCB]).SBlock? && LowNibble(r.buf[PCB]) == S_IFS
              && IsResponse(r.buf[PCB]) then
        a == Negotiation(if r.buf[LEN] == 1 && r.buf[DATA] == ifsd then Agreed(r.n) else Refused, 1, rest)
      else if retries == 0 then a == Negotiation(Refused, 1, rest)
      else
        var more := Negotiate(line, retries, ifsd, out, r.buf, rest);
        a.verdict == more.verdict && a.requests == more.requests + 1 && a.rest == more.rest && answers != []
  {
    hide ReceiveInto, Verify;
    assert answers == [] ==> ReceiveInto(line, Silence, Overlay(buf, out), BUFFER_SIZE).Lost?;
  }

  /** An agreement was read from one of the deliveries, and stood there exactly if that was complete. */
  lemma {:induction false} AgreedByTheCard(line: Line, retries: nat, ifsd: nat, out: seq<byte>, buf: seq<byte>,
                                           answers: seq<Raw>)
    returns (k: nat, pcb: byte)
    requires |buf| >= BUFFER_SIZE && Negotiate(line, retries, ifsd, out, buf, answers).verdict.Agreed?
    ensures k < |answers| && answers[k].Delivery? && 0 <= ifsd < 256
    ensures TypeOf(pcb).SBlock? && LowNibble(pcb) == S_IFS && IsResponse(pcb)
    ensures StandsIn(line, answers[k].data, pcb, [ifsd]) <==> Complete(line, answers[k].data)
    ensures !line.blockOriented ==> Complete(line, answers[k].data)
    decreases |answers|
  {
    hide Verify, StandsIn, Complete, Negotiate, Receive, TypeOf;
    NegotiateUnfolds(line, retries, ifsd, out, buf, answers);
    var r := Receive(line, NextOf(answers), Overlay(buf, out));
    if Verify(line.check, r.buf, r.n) && TypeOf(r.buf[PCB]).SBlock? && LowNibble(r.buf[PCB]) == S_IFS
       && IsResponse(r.buf[PCB]) {
      k, pcb := 0, r.buf[PCB];
      ReceiveSound(line, answers[0].data, Overlay(buf, out));
      assert r.buf[DATA..DATA + 1] == [r.buf[DATA]];
    } else {
      k, pcb := AgreedByTheCard(line, retries, ifsd, out, r.buf, answers[1..]);
      k := k + 1;
    }
  }

  /** En bloc, with a one-byte checksum: two bytes that are enough for an agreement, the control byte of
      the answer and in front of it what makes it a checksum, the same byte with the LRC. The size
      agreed on is the host's own. */
  lemma AgreedWithItself(line: Line, retries: nat, dad: byte, size: byte, nad: byte, buf: seq<byte>)
    requires |buf| >= BUFFER_SIZE && line.blockOriented && line.check.rcBytes == 1 && line.check.sum([nad]) == [0xE1]
    ensures var request := Frame(line.check, dad, S_BLOCK + S_IFS, [size]);
      var answers := [Delivery([nad, 0xE1])];
      && Negotiate(line, retries, size, request, buf, answers) == Negotiation(Agreed(2), 1, [])
      && !Complete(line, answers[0].data)
  {
    hide Frame, Verify, Receive, Negotiate;
    var request := Frame(line.check, dad, S_BLOCK + S_IFS, [size]);
    var two: seq<byte> := [nad, 0xE1];
    FrameInBuffer(line.check, dad, S_BLOCK + S_IFS, [size], buf);
    var o := Overlay(buf, request);
    assert o[3] == o[3..4][0] == size && o[LEN] == 1;
    TwoReceived(line, two, o);
    var b := Overlay(o, two);
    assert b == two + o[2..] && b[DATA] == o[3] && b[LEN] == o[2];
    assert b[PCB] == 0xE1 && b[LEN] == 1 && b[DATA] == size && TypeOf(0xE1).SBlock?;
    var answers: seq<Raw> := [Delivery(two)];
    assert NextOf(answers) == Delivery(two) && RestOf(answers) == [];
    NegotiateUnfolds(line, retries, size, request, buf, answers);
  }

  lemma TwoReceived(line: Line, two: seq<byte>, buf: seq<byte>)
    requires |buf| >= BUFFER_SIZE && line.blockOriented && line.check.rcBytes == 1
    requires |two| == 2 && line.check.sum([two[0]]) == [two[1]] && buf[LEN] == 1
    ensures Receive(line, Delivery(two), buf) == Got(Overlay(buf, two), 2) && Verify(line.check, Overlay(buf, two), 2)
    ensures !Complete(line, two)
  {
    assert two[..2] == two && Portion(line, two, BUFFER_SIZE) == two;
    var b := Overlay(buf, two);
    assert b == two + buf[2..];
    assert b[1..2] == [two[1]] && b[..1] == [two[0]];
  }

  function Repeated<T>(t: T, n: nat): (r: seq<T>)
    ensures |r| == n && forall i | 0 <= i < n :: r[i] == t
  {
    seq(n, _ => t)
  }

  /** What the line has still to deliver after a run. */
  function Unused(cfg: Config, s: Session, answers: seq<Raw>): seq<Raw>
    requires |s.buf| >= BUFFER_SIZE
    decreases |answers|
  {
    if answers == [] then []
    else
      var next := Step(cfg, s, answers[0]);
      if next.Go? then Unused(cfg, next.s, answers[1..]) else answers[1..]
  }

  // ---- what the operations come to ----

  /** The state of the protocol object. */
  datatype Proto = Proto(
    state: Phase, ns: bit, nr: bit, ifsc: nat, wtx: nat,
    blockOriented: bool, ifsd: nat, timeout: nat, retries: nat, check: Check)

  function LineOf(p: Proto): Line {
    Line(p.check, p.blockOriented, p.ifsd)
  }

  /** `sdata` is the frame buffer as the call finds it. */
  datatype Operation =
    | SetParam(kind: Param, value: nat)
    | Transceive(dad: byte, cmd: seq<byte>, room: nat, sdata: seq<byte>)
    | Resynchronize(nad: byte)
    | NegotiateIfsd(dad: byte, size: nat, sdata: seq<byte>)

  predicate HasBuffer(op: Operation) {
    match op
    case Transceive(_, _, _, sdata) => |sdata| >= BUFFER_SIZE
    case NegotiateIfsd(_, _, sdata) => |sdata| >= BUFFER_SIZE
    case _ => true
  }

  /** The state after an operation, the blocks it sent, what it returned, and what the line has
      still to deliver. */
  datatype Effect = Effect(p: Proto, sent: seq<seq<byte>>, rc: int, rcv: seq<byte>, rest: seq<Raw>)

  function WithParam(p: Proto, kind: Param, value: nat): Proto {
    match kind
    case RecvTimeout => p.(timeout := value)
    case BlockOriented => p.(blockOriented := value != 0)
    case ChecksumLrc => p.(check := CheckFor(Lrc))
    case ChecksumCrc => p.(check := CheckFor(Crc))
    case Ifsc => p.(ifsc := value)
    case Ifsd => p.(ifsd := value)
    case Unsupported => p
  }

  ghost function Transceived(p: Proto, dad: byte, cmd: seq<byte>, room: nat, sdata: seq<byte>, answers: seq<Raw>)
    : Effect
    requires |sdata| >= BUFFER_SIZE
  {
    if cmd == [] || p.state == Dead then Effect(p, [], -1, [], answers)
    else
      var cfg := Config(LineOf(p), dad, p.retries, room);
      var s := Start(cfg, p.ns, p.nr, p.ifsc, p.wtx, sdata, cmd);
      var r := Run(cfg, s, answers);
      Effect(p.(state := r.s.phase, ns := r.s.ns, nr := r.s.nr, ifsc := r.s.ifsc, wtx := r.s.wtx),
             BlocksSent(r.s.log), if r.Done? then |r.s.rbuf| else -1, r.s.rbuf, Unused(cfg, s, answers))
  }

  function Resynchronized(p: Proto, nad: byte, answers: seq<Raw>): Effect {
    var a := AskForResync(LineOf(p), nad, answers, 3);
    Effect(p.(state := if a.answered then p.state else Dead, ns := 0, nr := 0, wtx := 0),
           Repeated(ResyncRequest(p.check, nad), a.requests), if a.answered then 0 else -1, [], a.rest)
  }

  function Negotiated(p: Proto, dad: byte, size: nat, sdata: seq<byte>, answers: seq<Raw>): Effect
    requires |sdata| >= BUFFER_SIZE
  {
    var request := Build(p.check, p.ns, p.nr, p.ifsc, dad, S_BLOCK + S_IFS, [size % 256]);
    var n := Negotiate(LineOf(p), p.retries, size, request, sdata, answers);
    var sent := Repeated(request, n.requests);
    if n.verdict.Agreed? then Effect(p.(wtx := 0), sent, n.verdict.n, [], n.rest)
    else
      var e := Resynchronized(if n.verdict.CutOff? then p.(state := Dead) else p, dad, n.rest);
      e.(sent := sent + e.sent, rc := -1)
  }

  ghost function Apply(p: Proto, op: Operation, answers: seq<Raw>): Effect
    requires HasBuffer(op)
  {
    match op
    case SetParam(kind, value) =>
      Effect(WithParam(p, kind, value), [], if kind.Unsupported? then -1 else 0, [], answers)
    case Transceive(dad, cmd, room, sdata) => Transceived(p, dad, cmd, room, sdata, answers)
    case Resynchronize(nad) => Resynchronized(p, nad, answers)
    case NegotiateIfsd(dad, size, sdata) => Negotiated(p, dad, size, sdata, answers)
  }

  /** The effects of a row of operations. */
  ghost function Effects(p: Proto, ops: seq<Operation>, answers: seq<Raw>): (es: seq<Effect>)
    requires forall op | op in ops :: HasBuffer(op)
    ensures |es| == |ops|
    decreases |ops|
  {
    if ops == [] then []
    else
      var e := Apply(p, ops[0], answers);
      [e] + Effects(e.p, ops[1..], e.rest)
  }

  /** The effects `es` of `ops` from `p` on: always DEAD, and a transceive fails, sends nothing and
      changes nothing. */
  ghost predicate StaysDead(p: Proto, ops: seq<Operation>, es: seq<Effect>)
    decreases |ops|
  {
    && |es| == |ops|
    && (ops == [] ||
        (&& es[0].p.state == Dead
         && (ops[0].Transceive? ==> es[0].rc == -1 && es[0].sent == [] && es[0].p == p)
         && StaysDead(es[0].p, ops[1..], es[1..])))
  }

  /** Nothing brings a dead protocol back, whatever is called in whatever order and whatever the card
      answers. */
  lemma {:induction false} DeadForever(p: Proto, ops: seq<Operation>, answers: seq<Raw>)
    requires p.state == Dead && forall op | op in ops :: HasBuffer(op)
    ensures StaysDead(p, ops, Effects(p, ops, answers))
    decreases |ops|
  {
    hide AskForResync, Negotiate, Run, Start, Unused, Build;
    if ops != [] {
      var e := Apply(p, ops[0], answers);
      DeadForever(e.p, ops[1..], e.rest);
      assert Effects(p, ops, answers)[1..] == Effects(e.p, ops[1..], e.rest);
    }
  }

  /** A transceive of a non-empty command fails exactly into DEAD. */
  lemma FailsIntoDead(p: Proto, dad: byte, cmd: seq<byte>, room: nat, sdata: seq<byte>, answers: seq<Raw>)
    requires |sdata| >= BUFFER_SIZE && cmd != []
    ensures var e := Transceived(p, dad, cmd, room, sdata, answers);
      e.rc == -1 <==> e.p.state == Dead
  {
    hide Run, Start, Step, BlocksSent, Unused;
    if p.state != Dead {
      AnyCard(Config(LineOf(p), dad, p.retries, room), Opening(p.ns, p.nr, p.ifsc), p.wtx, sdata, cmd, answers);
    }
  }

  /** The request of `t1_resynchronize` fits its four-byte array exactly with the one-byte checksum:
      with the other, its last byte is written behind the array and not sent. */
  lemma ResyncRequestFits(check: Check, nad: byte)
    ensures var f := Frame(check, nad, S_BLOCK + S_RESYNC, []);
      && (f == ResyncRequest(check, nad) <==> check.rcBytes == 1)
      && (Verify(check, ResyncRequest(check, nad), 4) <== check.rcBytes == 1)
  {
    var f := Frame(check, nad, S_BLOCK + S_RESYNC, []);
    if check.rcBytes == 1 {
      assert f[..4] == f;
      FrameInBuffer(check, nad, S_BLOCK + S_RESYNC, [], f);
      assert Overlay(f, f) == f;
    }
  }

  /** What the loop of `t1_transceive` does after a block: next turn, `resync:`, `done:` or `error:`. */
  datatype Goto = Continue | ToResync | ToDone | ToError

  class T1 {
    var state: Phase
    var blockOriented: bool
    var ns: bit
    var nr: bit
    var ifsc: nat
    var ifsd: nat
    var timeout: nat
    var wtx: nat
    var retries: nat
    var check: Check
    const link: Link

    /** `t1_init`: the state is whatever zeroed memory means, SENDING. */
    constructor (link: Link, serial: bool)
      ensures this.link == link && state == Sending && ns == 0 && nr == 0 && ifsc == 32 && ifsd == 32
      ensures retries == 3 && timeout == 20000 && wtx == 0
      ensures check == CheckFor(Lrc) && blockOriented == !serial
    {
      this.link := link;
      state, ns, nr, ifsc, ifsd := Sending, 0, 0, 32, 32;
      retries, timeout, wtx := 3, 20000, 0;
      check := CheckFor(Lrc);
      blockOriented := !serial;
    }

    ghost function Configuration(dad: byte, room: nat): Config
      reads this
    {
      Config(Line(check, blockOriented, ifsd), dad, retries, room)
    }

    ghost function Snapshot(): Proto
      reads this
    {
      Proto(state, ns, nr, ifsc, wtx, blockOriented, ifsd, timeout, retries, check)
    }

    /** What the object and its link come to is `e`. */
    twostate predicate ComesTo(e: Effect)
      reads this, link
    {
      Snapshot() == e.p && link.sent == old(link.sent) + e.sent && link.answers == e.rest
    }

    /** `t1_set_param`: parameters never touch the protocol state. */
    method SetParam(kind: Param, value: nat) returns (rc: int)
      modifies this
      ensures ComesTo(Apply(old(Snapshot()), Operation.SetParam(kind, value), old(link.answers)))
      ensures rc == if kind.Unsupported? then -1 else 0
      ensures timeout == if kind.RecvTimeout? then value else old(timeout)
      ensures blockOriented == if kind.BlockOriented? then value != 0 else old(blockOriented)
      ensures ifsc == (if kind.Ifsc? then value else old(ifsc)) && ifsd == if kind.Ifsd? then value else old(ifsd)
      ensures check ==
        if kind.ChecksumLrc? then CheckFor(Lrc) else if kind.ChecksumCrc? then CheckFor(Crc) else old(check)
    {
      rc := 0;
      match kind
      case RecvTimeout => timeout := value;
      case BlockOriented => blockOriented := value != 0;
      case ChecksumLrc => check := CheckFor(Lrc);
      case ChecksumCrc => check := CheckFor(Crc);
      case Ifsc => ifsc := value;
      case Ifsd => ifsd := value;
      case Unsupported => rc := -1;
    }

    /** `t1_xcv`: sends a block and receives one into the same buffer, which takes `rmax` bytes. The
        first wait is prolonged by the extension the card asked for. */
    method Xcv(buf: seq<byte>, block: seq<byte>, rmax: nat) returns (received: Received)
      requires |buf| >= rmax > LEN
      modifies this`wtx, link
      ensures wtx == 0
      ensures link.sent == old(link.sent) + [block] && link.answers == RestOf(old(link.answers))
      ensures received == ReceiveInto(Line(check, blockOriented, ifsd), NextOf(old(link.answers)), buf, rmax)
      ensures var first := [(timeout + 1000 * old(wtx)) % 0x1_0000_0000];
        link.waits == old(link.waits) + first || (!blockOriented && link.waits == old(link.waits) + first + [timeout])
    {
      link.Send(block);
      var wait := (timeout + 1000 * wtx) % 0x1_0000_0000;
      wtx := 0;
      var ok, head, body;
      if blockOriented {
        ok, head := link.ReceiveBlock(Min(3 + ifsd + check.rcBytes + 1, rmax), wait);
        if !ok {
          return Lost;
        }
        ghost var data := NextOf(old(link.answers)).data;
        assert data[..Min(|data|, Min(rmax, 3 + ifsd + check.rcBytes + 1))] == head;
        var b := Overlay(buf, head);
        return Got(b, Min(|head|, b[LEN] + 3 + check.rcBytes));
      }
      ok, head := link.ReceiveBytes(3, wait);
      if !ok {
        return Lost;
      }
      var n := head[LEN] + check.rcBytes;
      if n + 3 > rmax || head[LEN] >= 254 {
        return Lost;
      }
      ok, body := link.ReceiveBytes(n, timeout);
      if !ok {
        return Lost;
      }
      ghost var data := NextOf(old(link.answers)).data;
      assert data[..n + 3] == data[..3] + data[3..][..n] == head + body;
      received := Got(Overlay(buf, head + body), n + 3);
    }

    ghost function SessionOf(call: Call): Session
      reads this, call
    {
      Session(state, ns, nr, ifsc, wtx, call.tries, call.resyncs, call.sentLength, call.lastSend,
              call.left, call.rcv, call.buf, call.out, call.log)
    }

    /** The outcome of a turn that leaves the session as it is now and goes to `goto`. */
    ghost function Outcome(call: Call, cfg: Config, goto: Goto): Next
      reads this, call
    {
      match goto
      case Continue => Go(SessionOf(call))
      case ToResync => Resync(cfg, SessionOf(call))
      case ToDone => Done(SessionOf(call))
      case ToError => Failed(Kill(SessionOf(call)))
    }

    /** `t1_build` into the frame buffer of the call. */
    method BuildInto(call: Call, dad: byte, pcb: byte, data: seq<byte>, ghost cfg: Config)
      requires cfg.line.check == check && cfg.dad == dad
      modifies call
      ensures SessionOf(call) == Put(cfg, old(SessionOf(call)), pcb, data)
    {
      hide Build;
      call.out := Build(check, ns, nr, ifsc, dad, pcb, data);
      call.buf := Overlay(call.buf, call.out);
      call.log := call.log + [Sent(call.out)];
    }

    method BuildNext(call: Call, dad: byte, ghost cfg: Config)
      requires cfg.line.check == check && cfg.dad == dad
      modifies call
      ensures SessionOf(call) == SendI(cfg, old(SessionOf(call)))
    {
      hide Build;
      BuildInto(call, dad, I_BLOCK, call.left, cfg);
      call.lastSend := Min(|call.left|, ifsc);
    }

    method Acknowledge(call: Call)
      modifies call, this`ns
      ensures SessionOf(call) == Ack(old(SessionOf(call))).(ns := Flip(old(ns)))
    {
      call.DropSent();
      ns := Flip(ns);
    }

    method OnRBlock(call: Call, dad: byte, pcb: byte, ghost cfg: Config) returns (goto: Goto)
      requires cfg.line.check == check && cfg.dad == dad && cfg.tries == retries
      modifies this`ns, call
      ensures Outcome(call, cfg, goto) == OnR(cfg, old(SessionOf(call)), pcb) && (goto.Continue? || goto.ToResync?)
    {
      hide Put;
      if LowNibble(pcb) != 0 {
        return ToResync;
      }
      if state == Receiving {
        BuildInto(call, dad, R_BLOCK, [], cfg);
        call.tries := retries;
        return Continue;
      }
      if SeqOf(pcb) != ns {
        call.sentLength := call.sentLength + call.lastSend;
        Acknowledge(call);
      }
      if call.left == [] {
        return ToResync;
      }
      BuildNext(call, dad, cfg);
      call.tries := retries;
      return Continue;
    }

    method OnIBlock(call: Call, dad: byte, pcb: byte, room: nat, ghost cfg: Config) returns (goto: Goto)
      requires cfg.line.check == check && cfg.dad == dad && cfg.tries == retries && cfg.room == room
      requires |call.buf| >= BUFFER_SIZE
      modifies this`state, this`ns, this`nr, call
      ensures Outcome(call, cfg, goto) == OnI(cfg, old(SessionOf(call)), pcb)
    {
      hide Put, Accept;
      if state == Sending {
        Acknowledge(call);
      }
      state := Receiving;
      if SeqOf(pcb) != nr {
        BuildInto(call, dad, R_BLOCK + OTHER_ERROR, [], cfg);
        return Continue;
      }
      goto := AcceptPiece(call, dad, call.buf[DATA..DATA + call.buf[LEN]], HasMore(pcb), room, cfg);
    }

    method AcceptPiece(call: Call, dad: byte, data: seq<byte>, more: bool, room: nat, ghost cfg: Config)
      returns (goto: Goto)
      requires cfg.line.check == check && cfg.dad == dad && cfg.tries == retries && cfg.room == room
      modifies this`nr, call
      ensures Outcome(call, cfg, goto) == Accept(cfg, old(SessionOf(call)), data, more)
    {
      hide Put;
      nr := Flip(nr);
      if |call.rcv| + |data| > room {
        return ToError;
      }
      call.rcv := call.rcv + data;
      call.log := call.log + [Stored];
      if !more {
        return ToDone;
      }
      BuildInto(call, dad, R_BLOCK, [], cfg);
      call.tries := retries;
      return Continue;
    }

    method OnSBlock(call: Call, dad: byte, pcb: byte, ghost cfg: Config) returns (goto: Goto)
      requires cfg.line.check == check && cfg.dad == dad && cfg.tries == retries
      requires |call.buf| >= BUFFER_SIZE
      modifies this`state, this`ifsc, this`wtx, call
      ensures Outcome(call, cfg, goto) == OnS(cfg, old(SessionOf(call)), pcb) && (goto.Continue? || goto.ToResync?)
    {
      hide Put;
      if IsResponse(pcb) {
        if state != Resynch {
          return ToResync;
        }
        state := Sending;
        call.sentLength, call.lastSend, call.resyncs, call.tries, call.rcv := 0, 0, RESYNCS, retries, [];
        call.log := call.log + [Resynced];
        BuildNext(call, dad, cfg);
        return Continue;
      }
      var value := call.buf[DATA];
      var answer := [];
      match LowNibble(pcb) {
        case 2 =>
        case 1 =>
          if value == 0 {
            return ToResync;
          }
          ifsc := value;
          answer := [value];
        case 3 =>
          wtx := value;
          answer := [value];
        case _ =>
          return ToResync;
      }
      BuildInto(call, dad, S_BLOCK + S_RESPONSE + LowNibble(pcb), answer, cfg);
      call.tries := retries;
      return Continue;
    }

    /** `t1_transceive`. `sdata` is the frame buffer as the call finds it. */
    method Transceive(dad: byte, cmd: seq<byte>, room: nat, sdata: seq<byte>) returns (rc: int, rcv: seq<byte>)
      requires |sdata| >= BUFFER_SIZE
      modifies this, link
      ensures var e := Apply(old(Snapshot()), Operation.Transceive(dad, cmd, room, sdata), old(link.answers));
        ComesTo(e) && rc == e.rc && rcv == e.rcv
    {
      hide Build, Step, Run, Unused, BlocksSent, Start;
      if cmd == [] || state == Dead {
        return -1, [];
      }
      ghost var cfg := Configuration(dad, room);
      ghost var start := Start(cfg, ns, nr, ifsc, wtx, sdata, cmd);
      ghost var script, before := link.answers, link.sent;

      state := Sending;
      var call := new Call(cmd, sdata, retries);
      BuildNext(call, dad, cfg);
      StartIs(cfg, ns, nr, ifsc, wtx, sdata, cmd);
      BlocksSentAppend([], Sent(call.out));
      NoBlocks();

      while true
        invariant fresh(call) && |call.buf| >= BUFFER_SIZE && state != Dead
        invariant Configuration(dad, room) == cfg && timeout == old(timeout)
        invariant link.sent + [call.out] == before + BlocksSent(call.log)
        invariant Run(cfg, start, script) == Run(cfg, SessionOf(call), link.answers)
        invariant Unused(cfg, start, script) == Unused(cfg, SessionOf(call), link.answers)
        decreases |link.answers|
      {
        ghost var s, raw, rest := SessionOf(call), NextOf(link.answers), RestOf(link.answers);
        ghost var next := Step(cfg, s, raw);
        RunUnfolds(cfg, s, link.answers);
        StepSends(cfg, s, raw);
        var goto := Turn(call, dad, room, cfg);
        match goto
        case ToError =>
          state := Dead;
          return -1, call.rcv;
        case ToDone =>
          return |call.rcv|, call.rcv;
        case Continue =>
      }
    }

    /** The code at `resync:`. */
    method AskResync(call: Call, dad: byte, ghost cfg: Config) returns (goto: Goto)
      requires cfg.line.check == check && cfg.dad == dad
      modifies this`state, this`ns, this`nr, call
      ensures Outcome(call, cfg, goto) == Resync(cfg, old(SessionOf(call))) && (goto.Continue? || goto.ToError?)
    {
      hide Put;
      if call.resyncs == 0 {
        return ToError;
      }
      call.resyncs := call.resyncs - 1;
      ns, nr := 0, 0;
      BuildInto(call, dad, S_BLOCK + S_RESYNC, [], cfg);
      state := Resynch;
      return Continue;
    }

    /** One turn of the loop. */
    method Turn(call: Call, dad: byte, room: nat, ghost cfg: Config) returns (goto: Goto)
      requires cfg == Configuration(dad, room) && |call.buf| >= BUFFER_SIZE
      modifies this, call, link
      ensures Outcome(call, cfg, goto) == Step(cfg, old(SessionOf(call)), NextOf(old(link.answers)))
      ensures Configuration(dad, room) == cfg && timeout == old(timeout) && !goto.ToResync?
      ensures link.sent == old(link.sent) + [old(call.out)] && link.answers == RestOf(old(link.answers))
    {
      hide Put, OnR, OnI, OnS;
      goto := ExchangeBlock(call, dad, room, cfg);
      if goto.ToResync? {
        goto := AskResync(call, dad, cfg);
      }
    }

    /** Sends a block, receives one and acts on it, up to the label the code goes to. */
    method ExchangeBlock(call: Call, dad: byte, room: nat, ghost cfg: Config) returns (goto: Goto)
      requires cfg == Configuration(dad, room) && |call.buf| >= BUFFER_SIZE
      modifies this, call, link
      ensures Outcome(call, cfg, goto) == Step(cfg, old(SessionOf(call)), NextOf(old(link.answers)))
      ensures Configuration(dad, room) == cfg && timeout == old(timeout)
      ensures link.sent == old(link.sent) + [old(call.out)] && link.answers == RestOf(old(link.answers))
    {
      hide Put, OnR, OnI, OnS, Resync, ReceiveInto, Verify, TypeOf;
      ghost var raw := NextOf(link.answers);
      call.tries := Decrement(call.tries);
      var received := Xcv(call.buf, call.out, BUFFER_SIZE);
      if received.Lost? {
        return ToError;
      }
      call.buf := received.buf;
      if !Verify(check, call.buf, received.n) {
        if call.tries == 0 || call.sentLength != 0 {
          return ToResync;
        }
        BuildInto(call, dad, R_BLOCK + EDC_ERROR, [], cfg);
        return Continue;
      }
      goto := ActOn(call, dad, room, cfg, raw.data);
    }

    /** Acts on the block in the buffer, by its type. */
    method ActOn(call: Call, dad: byte, room: nat, ghost cfg: Config, ghost raw: seq<byte>) returns (goto: Goto)
      requires cfg == Configuration(dad, room) && |call.buf| >= BUFFER_SIZE
      modifies this`state, this`ns, this`nr, this`ifsc, this`wtx, call
      ensures var s, pcb := Heed(old(SessionOf(call)), raw), old(call.buf)[PCB];
        Outcome(call, cfg, goto) ==
          match TypeOf(pcb)
          case RBlock => OnR(cfg, s, pcb)
          case IBlock => OnI(cfg, s, pcb)
          case SBlock => OnS(cfg, s, pcb)
    {
      hide Put, OnR, OnI, OnS, Resync, TypeOf;
      var pcb := call.buf[PCB];
      call.log := call.log + [Heard(pcb, call.buf[DATA], call.buf[DATA..DATA + call.buf[LEN]], raw)];
      assert SessionOf(call) == Heed(old(SessionOf(call)), raw);
      match TypeOf(pcb)
      case RBlock => goto := OnRBlock(call, dad, pcb, cfg);
      case IBlock => goto := OnIBlock(call, dad, pcb, room, cfg);
      case SBlock => goto := OnSBlock(call, dad, pcb, cfg);
    }

    /** The loop of `t1_resynchronize`. */
    method RequestResync(nad: byte) returns (answered: bool)
      modifies this`ns, this`nr, this`wtx, link
      ensures var a := AskForResync(Line(check, blockOriented, ifsd), nad, old(link.answers), 3);
        && answered == a.answered && ns == 0 && nr == 0 && wtx == 0
        && link.sent == old(link.sent) + Repeated(ResyncRequest(check, nad), a.requests) && link.answers == a.rest
    {
      hide Frame, ReceiveInto, Verify, AskForResync, Repeated, ResyncRequest;
      ghost var line, before := Line(check, blockOriented, ifsd), link.sent;
      ghost var request := ResyncRequest(check, nad);
      ghost var all := AskForResync(line, nad, link.answers, 3);
      NoneLeft(line, nad);
      var left := 3;
      while left != 0
        invariant 0 <= left <= 3 && (left < 3 ==> ns == 0 && nr == 0 && wtx == 0)
        invariant link.sent == before + Repeated(request, 3 - left)
        invariant var more := AskForResync(line, nad, link.answers, left);
          all.answered == more.answered && all.requests == more.requests + 3 - left && all.rest == more.rest
      {
        AskUnfolds(line, nad, link.answers, left);
        left := left - 1;
        ns, nr := 0, 0;
        var block := ResyncRequest(check, nad);
        RepeatedMore(request, 2 - left);
        var received := Xcv(block, block, 4);
        if received.Lost? || received.n != 4 {
          return false;
        }
        if Verify(check, received.buf, 4) && received.buf[PCB] == S_BLOCK + S_RESPONSE + S_RESYNC {
          return true;
        }
      }
      answered := false;
    }

    /** `t1_resynchronize` */
    method Resynchronize(nad: byte) returns (rc: int)
      modifies this, link
      ensures var e := Apply(old(Snapshot()), Operation.Resynchronize(nad), old(link.answers));
        ComesTo(e) && rc == e.rc
    {
      hide AskForResync, Repeated, ResyncRequest;
      var answered := RequestResync(nad);
      if answered {
        return 0;
      }
      state := Dead;
      rc := -1;
    }

    /** The loop of `t1_negotiate_ifsd`. The retry counter is tested but never counted down. */
    method OfferIfsd(dad: byte, size: nat, sdata: seq<byte>) returns (verdict: Verdict)
      requires |sdata| >= BUFFER_SIZE
      modifies this`wtx, link
      ensures var request := Build(check, ns, nr, ifsc, dad, S_BLOCK + S_IFS, [size % 256]);
        var n := Negotiate(Line(check, blockOriented, ifsd), retries, size, request, sdata, old(link.answers));
        && verdict == n.verdict && wtx == 0
        && link.sent == old(link.sent) + Repeated(request, n.requests) && link.answers == n.rest
    {
      hide Build, Frame, ReceiveInto, Verify, Negotiate, Repeated;
      ghost var line := Line(check, blockOriented, ifsd);
      ghost var request := Build(check, ns, nr, ifsc, dad, S_BLOCK + S_IFS, [size % 256]);
      ghost var all := Negotiate(line, retries, size, request, sdata, link.answers);
      var buf := sdata;
      ghost var k := 0;
      while true
        invariant |buf| >= BUFFER_SIZE
        invariant link.sent == old(link.sent) + Repeated(request, k)
        invariant var more := Negotiate(line, retries, size, request, buf, link.answers);
          all.verdict == more.verdict && all.requests == more.requests + k && all.rest == more.rest
        decreases |link.answers|
      {
        NegotiateUnfolds(line, retries, size, request, buf, link.answers);
        var out := Build(check, ns, nr, ifsc, dad, S_BLOCK + S_IFS, [size % 256]);
        RepeatedMore(request, k);
        k := k + 1;
        var received := Xcv(Overlay(buf, out), out, BUFFER_SIZE);
        if received.Lost? {
          return CutOff;
        }
        buf := received.buf;
        if Verify(check, buf, received.n) && TypeOf(buf[PCB]) == SBlock && LowNibble(buf[PCB]) == S_IFS
          && IsResponse(buf[PCB]) {
          if buf[LEN] != 1 || buf[DATA] != size {
            return Refused;
          }
          return Agreed(received.n);
        }
        if retries == 0 {
          return Refused;
        }
      }
    }

    /** `t1_negotiate_ifsd` */
    method NegotiateIfsd(dad: byte, size: nat, sdata: seq<byte>) returns (rc: int)
      requires |sdata| >= BUFFER_SIZE
      modifies this, link
      ensures var e := Apply(old(Snapshot()), Operation.NegotiateIfsd(dad, size, sdata), old(link.answers));
        ComesTo(e) && rc == e.rc
    {
      hide Build, Negotiate, Repeated, AskForResync;
      var verdict := OfferIfsd(dad, size, sdata);
      if verdict.Agreed? {
        return verdict.n;
      }
      if verdict.CutOff? {
        state := Dead;
      }
      rc := Resynchronize(dad);
      rc := -1;
    }
  }

  lemma RepeatedMore<T>(t: T, n: nat)
    ensures Repeated(t, n) + [t] == Repeated(t, n + 1)
  {
  }

  lemma BlocksSentAppend(log: seq<Event>, e: Event)
    ensures BlocksSent(log + [e]) == BlocksSent(log) + (if e.Sent? then [e.block] else [])
  {
    assert (log + [e])[..|log|] == log;
  }
}
