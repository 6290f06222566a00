/** One exchange of a command and its answer over T=1: the loop of `t1_transceive` as a
    step function on the values of its variables. */
module T1Session {
  import opened Bytes
  import opened T1Block

  datatype Phase = Sending | Receiving | Resynch | Dead

  /** What a run leaves behind, in order. `Heard` is the block in the buffer when it passes the
      checksum, with the byte where its payload begins, and the delivery that came; what the host does
      about it follows. */
  datatype Event =
    | Sent(block: seq<byte>)
    | Heard(pcb: byte, first: byte, payload: seq<byte>, raw: seq<byte>)
    | Acked                                  // the last I-block's payload leaves the send buffer
    | Stored                                 // the payload heard goes to the reply buffer
    | Resynced                               // the answer to a resync request was accepted

  /** What stays fixed during one call: `tries` is `t1->retries`, `room` the size of `rcv_buf`. */
  datatype Config = Config(line: Line, dad: byte, tries: nat, room: nat)

  /** The protocol state and the local variables of the call. `left` is the unread part of
      `sbuf`, `out` the block to send next, `buf` the frame buffer it was built in. */
  datatype Session = Session(
    phase: Phase, ns: bit, nr: bit, ifsc: nat, wtx: nat,
    retries: nat, resyncs: nat, sentLength: nat, lastSend: nat,
    left: seq<byte>, rbuf: seq<byte>, buf: seq<byte>, out: seq<byte>,
    log: seq<Event>)

  datatype Next = Go(s: Session) | Done(s: Session) | Failed(s: Session)

  const RESYNCS: nat := 3

  /** `retries--` on an unsigned int. */
  function Decrement(n: nat): nat {
    (n + 0xFFFF_FFFF) % 0x1_0000_0000
  }

  // ---- building the next block ----

  function Put(cfg: Config, s: Session, pcb: byte, data: seq<byte>): (t: Session)
    ensures |t.buf| >= |s.buf|
  {
    var b := Build(cfg.line.check, s.ns, s.nr, s.ifsc, cfg.dad, pcb, data);
    s.(out := b, buf := Overlay(s.buf, b), log := s.log + [Sent(b)])
  }

  function SendI(cfg: Config, s: Session): (t: Session)
    ensures |t.buf| >= |s.buf|
  {
    Put(cfg, s, I_BLOCK, s.left).(lastSend := Min(|s.left|, s.ifsc))
  }

  function SendR(cfg: Config, s: Session, err: byte): (t: Session)
    requires err < 16
    ensures |t.buf| >= |s.buf|
  {
    Put(cfg, s, R_BLOCK + err, [])
  }

  /** `ct_buf_get(&sbuf, NULL, last_send); last_send = 0;` */
  function Ack(s: Session): Session {
    if s.lastSend == 0 || s.lastSend > |s.left| then
      s.(lastSend := 0)
    else
      s.(left := s.left[s.lastSend..], lastSend := 0, log := s.log + [Acked])
  }

  function Refill(cfg: Config, s: Session): Session {
    s.(retries := cfg.tries)
  }

  function Kill(s: Session): Session {
    s.(phase := Dead)
  }

  function Resync(cfg: Config, s: Session): (r: Next)
    ensures s.phase != Dead ==> (r.Failed? <==> r.s.phase == Dead)
    ensures |r.s.buf| >= |s.buf|
  {
    if s.resyncs == 0 then Failed(Kill(s))
    else Go(Put(cfg, s.(resyncs := s.resyncs - 1, ns := 0, nr := 0), S_BLOCK + S_RESYNC, []).(phase := Resynch))
  }

  // ---- the three kinds of block received ----

  function OnR(cfg: Config, s: Session, pcb: byte): (r: Next)
    ensures s.phase != Dead ==> (r.Failed? <==> r.s.phase == Dead)
    ensures |r.s.buf| >= |s.buf|
  {
    if LowNibble(pcb) != 0 then
      Resync(cfg, s)
    else if s.phase == Receiving then
      Go(Refill(cfg, SendR(cfg, s, 0)))
    else
      var t := if SeqOf(pcb) != s.ns
               then Ack(s).(sentLength := s.sentLength + s.lastSend, ns := Flip(s.ns))
               else s;
      if t.left == [] then Resync(cfg, t) else Go(Refill(cfg, SendI(cfg, t)))
  }

  /** The payload of the I-block the host expects goes to `rbuf`. */
  function Accept(cfg: Config, t: Session, data: seq<byte>, more: bool): (r: Next)
    ensures t.phase != Dead ==> (r.Failed? <==> r.s.phase == Dead)
    ensures |r.s.buf| >= |t.buf|
  {
    var u := t.(nr := Flip(t.nr));
    if |u.rbuf| + |data| > cfg.room then
      Failed(Kill(u))
    else
      var v := u.(rbuf := u.rbuf + data, log := u.log + [Stored]);
      if more then Go(Refill(cfg, SendR(cfg, v, 0))) else Done(v)
  }

  function OnI(cfg: Config, s: Session, pcb: byte): (r: Next)
    requires |s.buf| >= BUFFER_SIZE
    ensures s.phase != Dead ==> (r.Failed? <==> r.s.phase == Dead)
    ensures |r.s.buf| >= |s.buf|
  {
    var t := (if s.phase == Sending then Ack(s).(ns := Flip(s.ns)) else s).(phase := Receiving);
    if SeqOf(pcb) != t.nr then Go(SendR(cfg, t, OTHER_ERROR))
    else Accept(cfg, t, s.buf[DATA..DATA + s.buf[LEN]], HasMore(pcb))
  }

  /** The answer to a request of the card. */
  function Respond(cfg: Config, s: Session, pcb: byte, data: seq<byte>): (r: Next)
    ensures s.phase != Dead ==> (r.Failed? <==> r.s.phase == Dead)
    ensures |r.s.buf| >= |s.buf|
  {
    Go(Refill(cfg, Put(cfg, s, S_BLOCK + S_RESPONSE + LowNibble(pcb), data)))
  }

  function OnRequest(cfg: Config, s: Session, pcb: byte): (r: Next)
    requires |s.buf| >= BUFFER_SIZE
    ensures s.phase != Dead ==> (r.Failed? <==> r.s.phase == Dead)
    ensures |r.s.buf| >= |s.buf|
  {
    match LowNibble(pcb)
    case 2 => Respond(cfg, s, pcb, [])                                    // abort
    case 1 =>                                                             // ifs
      if s.buf[DATA] == 0 then Resync(cfg, s)
      else Respond(cfg, SetIfsc(s, s.buf[DATA]), pcb, [s.buf[DATA]])
    case 3 => Respond(cfg, s.(wtx := s.buf[DATA]), pcb, [s.buf[DATA]])    // wtx
    case _ => Resync(cfg, s)                                              // resync, unknown
  }

  function SetIfsc(s: Session, size: byte): Session {
    s.(ifsc := size)
  }

  /** After the answer to a resync request: send again from where `sbuf` stands. */
  function Restarted(cfg: Config, s: Session): Session {
    s.(phase := Sending, sentLength := 0, lastSend := 0, resyncs := RESYNCS,
       retries := cfg.tries, rbuf := [], log := s.log + [Resynced])
  }

  function OnS(cfg: Config, s: Session, pcb: byte): (r: Next)
    requires |s.buf| >= BUFFER_SIZE
    ensures s.phase != Dead ==> (r.Failed? <==> r.s.phase == Dead)
    ensures |r.s.buf| >= |s.buf|
  {
    if !IsResponse(pcb) then OnRequest(cfg, s, pcb)
    else if s.phase == Resynch then Go(SendI(cfg, Restarted(cfg, s)))
    else Resync(cfg, s)
  }

  /** A block in the buffer that passed the checksum when `raw` had come. */
  function Heed(s: Session, raw: seq<byte>): Session
    requires |s.buf| >= BUFFER_SIZE
  {
    s.(log := s.log + [Heard(s.buf[PCB], s.buf[DATA], s.buf[DATA..DATA + s.buf[LEN]], raw)])
  }

  /** One turn of the loop, given what the line delivers. */
  function Step(cfg: Config, s: Session, raw: Raw): (r: Next)
    requires |s.buf| >= BUFFER_SIZE
    ensures s.phase != Dead ==> (r.Failed? <==> r.s.phase == Dead)
    ensures |r.s.buf| >= |s.buf|
  {
    var t := s.(retries := Decrement(s.retries), wtx := 0);
    match Receive(cfg.line, raw, t.buf)
    case Lost => Failed(Kill(t))
    case Got(buf, n) =>
      var u := t.(buf := buf);
      if !Verify(cfg.line.check, buf, n) then
        if u.retries == 0 || u.sentLength != 0 then Resync(cfg, u) else Go(SendR(cfg, u, EDC_ERROR))
      else
        match TypeOf(buf[PCB])
        case RBlock => OnR(cfg, Heed(u, raw.data), buf[PCB])
        case IBlock => OnI(cfg, Heed(u, raw.data), buf[PCB])
        case SBlock => OnS(cfg, Heed(u, raw.data), buf[PCB])
  }

  /** The loop, fed with a list of deliveries; when the list ends the line stays silent. */
  function Run(cfg: Config, s: Session, answers: seq<Raw>): Next
    requires |s.buf| >= BUFFER_SIZE
    decreases |answers|
  {
    if answers == [] then
      Step(cfg, s, Silence)
    else
      var next := Step(cfg, s, answers[0]);
      if next.Go? then Run(cfg, next.s, answers[1..]) else next
  }

  /** The session at the top of the loop for the first time. */
  function Start(cfg: Config, ns: bit, nr: bit, ifsc: nat, wtx: nat, buf: seq<byte>, cmd: seq<byte>): Session {
    SendI(cfg, Session(Sending, ns, nr, ifsc, wtx, cfg.tries, RESYNCS, 0, 0, cmd, [], buf, [], []))
  }

  // ---- a frame that arrives intact ----

  /** The session with a received frame in its buffer. */
  function Loaded(s: Session, f: seq<byte>): Session {
    s.(retries := Decrement(s.retries), wtx := 0, buf := Overlay(s.buf, f))
  }

  /** It goes to the handler of its type, with its payload in the buffer. */
  lemma StepOnFrame(cfg: Config, s: Session, nad: byte, pcb: byte, payload: seq<byte>)
    requires |s.buf| >= BUFFER_SIZE && Passes(cfg.line, payload)
    ensures var f := Frame(cfg.line.check, nad, pcb, payload);
      var u := Loaded(s, f);
      && u.buf[PCB] == pcb && u.buf[LEN] == |payload| && u.buf[DATA..DATA + |payload|] == payload
      && Heed(u, f) == u.(log := s.log + [Heard(pcb, u.buf[DATA], payload, f)])
      && Step(cfg, s, Delivery(f)) ==
         match TypeOf(pcb)
         case RBlock => OnR(cfg, Heed(u, f), pcb)
         case IBlock => OnI(cfg, Heed(u, f), pcb)
         case SBlock => OnS(cfg, Heed(u, f), pcb)
  {
    var f := Frame(cfg.line.check, nad, pcb, payload);
    FrameIsReceived(cfg.line, nad, pcb, payload, s.buf);
    FrameInBuffer(cfg.line.check, nad, pcb, payload, s.buf);
  }
}
