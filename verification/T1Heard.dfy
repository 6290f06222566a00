/** Where the blocks come from that `t1_transceive` acts on: which of them stood on the line. */
module T1Heard {
  import opened Bytes
  import opened T1Block
  import opened T1Session

  /** The blocks heard, in order. */
  ghost function HeardIn(log: seq<Event>): seq<Event> {
    if log == [] then []
    else
      var e := log[|log| - 1];
      HeardIn(log[..|log| - 1]) + (if e.Heard? then [e] else [])
  }

  /** Block `e` was read from this delivery; it stood there exactly if the delivery was complete,
      which on a serial line it always is. */
  ghost predicate OnLine(line: Line, e: Event, raw: Raw) {
    && e.Heard? && raw == Delivery(e.raw)
    && (StandsIn(line, e.raw, e.pcb, e.payload) <==> Complete(line, e.raw))
    && (!line.blockOriented ==> Complete(line, e.raw))
  }

  /** The blocks were read from deliveries among `answers`, in their order, each from its own. */
  ghost predicate HeardFrom(line: Line, heard: seq<Event>, answers: seq<Raw>)
    decreases |answers|
  {
    heard == [] ||
    (answers != [] &&
      (HeardFrom(line, heard, answers[1..]) ||
       (OnLine(line, heard[0], answers[0]) && HeardFrom(line, heard[1..], answers[1..]))))
  }

  // ---- what a step adds ----

  lemma Unheard(log: seq<Event>, e: Event)
    requires !e.Heard?
    ensures HeardIn(log + [e]) == HeardIn(log)
  {
    assert (log + [e])[..|log|] == log;
  }

  lemma PutUnheard(cfg: Config, s: Session, pcb: byte, data: seq<byte>)
    ensures HeardIn(Put(cfg, s, pcb, data).log) == HeardIn(s.log)
  {
    hide Build;
    Unheard(s.log, Sent(Put(cfg, s, pcb, data).out));
  }

  lemma ResyncUnheard(cfg: Config, s: Session)
    ensures HeardIn(Resync(cfg, s).s.log) == HeardIn(s.log)
  {
    hide Put;
    if s.resyncs > 0 {
      PutUnheard(cfg, s.(resyncs := s.resyncs - 1, ns := 0, nr := 0), S_BLOCK + S_RESYNC, []);
    }
  }

  lemma OnRUnheard(cfg: Config, s: Session, pcb: byte)
    ensures HeardIn(OnR(cfg, s, pcb).s.log) == HeardIn(s.log)
  {
    hide Put, SeqOf, Resync, LowNibble, HeardIn;
    Unheard(s.log, Acked);
    var t := if SeqOf(pcb) != s.ns then Ack(s).(sentLength := s.sentLength + s.lastSend, ns := Flip(s.ns)) else s;
    ResyncUnheard(cfg, s);
    ResyncUnheard(cfg, t);
    PutUnheard(cfg, s, R_BLOCK, []);
    PutUnheard(cfg, t, I_BLOCK, t.left);
  }

  lemma AcceptUnheard(cfg: Config, t: Session, data: seq<byte>, more: bool)
    ensures HeardIn(Accept(cfg, t, data, more).s.log) == HeardIn(t.log)
  {
    hide Put, HeardIn;
    Unheard(t.log, Stored);
    PutUnheard(cfg, t.(nr := Flip(t.nr), rbuf := t.rbuf + data, log := t.log + [Stored]), R_BLOCK, []);
  }

  lemma OnIUnheard(cfg: Config, s: Session, pcb: byte)
    requires |s.buf| >= BUFFER_SIZE
    ensures HeardIn(OnI(cfg, s, pcb).s.log) == HeardIn(s.log)
  {
    hide Put, SeqOf, HasMore, Accept, HeardIn;
    Unheard(s.log, Acked);
    var t := (if s.phase == Sending then Ack(s).(ns := Flip(s.ns)) else s).(phase := Receiving);
    PutUnheard(cfg, t, R_BLOCK + OTHER_ERROR, []);
    AcceptUnheard(cfg, t, s.buf[DATA..DATA + s.buf[LEN]], HasMore(pcb));
  }

  lemma OnRequestUnheard(cfg: Config, s: Session, pcb: byte)
    requires |s.buf| >= BUFFER_SIZE
    ensures HeardIn(OnRequest(cfg, s, pcb).s.log) == HeardIn(s.log)
  {
    hide Put, Resync, HeardIn;
    var size, answer := s.buf[DATA], S_BLOCK + S_RESPONSE + LowNibble(pcb);
    match LowNibble(pcb)
    case 2 =>
      PutUnheard(cfg, s, answer, []);
    case 1 =>
      ResyncUnheard(cfg, s);
      PutUnheard(cfg, SetIfsc(s, size), answer, [size]);
    case 3 =>
      PutUnheard(cfg, s.(wtx := size), answer, [size]);
    case _ =>
      ResyncUnheard(cfg, s);
  }

  lemma OnSUnheard(cfg: Config, s: Session, pcb: byte)
    requires |s.buf| >= BUFFER_SIZE
    ensures HeardIn(OnS(cfg, s, pcb).s.log) == HeardIn(s.log)
  {
    hide Put, Resync, HeardIn, OnRequest;
    if !IsResponse(pcb) {
      OnRequestUnheard(cfg, s, pcb);
    } else if s.phase == Resynch {
      Unheard(s.log, Resynced);
      PutUnheard(cfg, Restarted(cfg, s), I_BLOCK, s.left);
    } else {
      ResyncUnheard(cfg, s);
    }
  }

  /** One turn hears the block of its delivery, or none. */
  lemma StepHears(cfg: Config, s: Session, raw: Raw) returns (heard: seq<Event>)
    requires |s.buf| >= BUFFER_SIZE
    ensures HeardIn(Step(cfg, s, raw).s.log) == HeardIn(s.log) + heard
    ensures heard == [] || (|heard| == 1 && raw.Delivery? && OnLine(cfg.line, heard[0], raw))
  {
    hide Put, OnR, OnI, OnS, Resync, Verify, Receive, StandsIn, Complete;
    var t := s.(retries := Decrement(s.retries), wtx := 0);
    heard := [];
    match Receive(cfg.line, raw, t.buf)
    case Lost =>
    case Got(buf, n) =>
      var u := t.(buf := buf);
      if !Verify(cfg.line.check, buf, n) {
        ResyncUnheard(cfg, u);
        PutUnheard(cfg, u, R_BLOCK + EDC_ERROR, []);
      } else {
        var v := Heed(u, raw.data);
        heard := [v.log[|u.log|]];
        assert v.log[..|u.log|] == u.log;
        ReceiveSound(cfg.line, raw.data, s.buf);
        match TypeOf(buf[PCB])
        case RBlock => OnRUnheard(cfg, v, buf[PCB]);
        case IBlock => OnIUnheard(cfg, v, buf[PCB]);
        case SBlock => OnSUnheard(cfg, v, buf[PCB]);
      }
  }

  /** A run hears only what the line delivers. */
  lemma {:induction false} RunHears(cfg: Config, s: Session, answers: seq<Raw>) returns (heard: seq<Event>)
    requires |s.buf| >= BUFFER_SIZE
    ensures HeardIn(Run(cfg, s, answers).s.log) == HeardIn(s.log) + heard && HeardFrom(cfg.line, heard, answers)
    decreases |answers|
  {
    hide Step, OnLine;
    if answers == [] {
      heard := StepHears(cfg, s, Silence);
    } else {
      heard := StepHears(cfg, s, answers[0]);
      var next := Step(cfg, s, answers[0]);
      var later: seq<Event> := [];
      if next.Go? {
        later := RunHears(cfg, next.s, answers[1..]);
      }
      assert HeardIn(s.log) + heard + later == HeardIn(s.log) + (heard + later);
      assert heard != [] ==> (heard + later)[0] == heard[0] && (heard + later)[1..] == later;
      assert heard == [] ==> heard + later == later;
      heard := heard + later;
    }
  }

  // ---- what that says of one block ----

  /** Every block heard was read from one of the deliveries. */
  lemma {:induction false} HeardAt(line: Line, heard: seq<Event>, answers: seq<Raw>, i: nat) returns (k: nat)
    requires HeardFrom(line, heard, answers) && i < |heard|
    ensures k < |answers| && OnLine(line, heard[i], answers[k])
    decreases |answers|
  {
    hide OnLine;
    if HeardFrom(line, heard, answers[1..]) {
      k := HeardAt(line, heard, answers[1..], i);
      k := k + 1;
    } else if i == 0 {
      k := 0;
    } else {
      k := HeardAt(line, heard[1..], answers[1..], i - 1);
      k := k + 1;
    }
  }
}
