/** With a conforming card, `t1_transceive` is a plain call: the card executes the command
    exactly once and the host returns exactly the card's answer. */
module T1Conformance {
  import opened Bytes
  import opened T1Block
  import opened T1Session
  import opened T1Card

  /** The conversation the session is in: the card had executed `before`; `cmd` is being sent. */
  datatype Exchange = Exchange(cfg: Config, app: App, before: seq<seq<byte>>, cmd: seq<byte>)

  ghost predicate Fair(x: Exchange) {
    Conforming(x.cfg.line, x.app) && 1 <= x.cfg.tries < 0x1_0000_0000
  }

  ghost function Answer(x: Exchange): seq<seq<byte>> {
    x.app(x.before + [x.cmd])
  }

  /** The card's last block is a request of its own. */
  ghost predicate Asks(check: Check, c: Card) {
    && |c.last| == 4 + check.rcBytes
    && (c.last == Frame(check, c.nad, 0xC3, [c.last[3]])
        || (c.last == Frame(check, c.nad, 0xC1, [c.last[3]]) && 1 <= c.last[3] <= 254))
  }

  /** The card's last block is the I-block with number `nr`. */
  ghost predicate SendsPiece(x: Exchange, c: Card, nr: bit) {
    var check := x.cfg.line.check;
    && |c.last| >= 3 + check.rcBytes
    && var piece := c.last[3..|c.last| - check.rcBytes];
       && FitsFrame(x.cfg.line, piece)
       && c.last == Frame(check, c.nad, 64 * nr + (if c.chunks != [] then 0x20 else 0), piece)
  }

  /** The pieces of the answer the host does not have yet. */
  ghost function Undelivered(x: Exchange, c: Card): seq<seq<byte>> {
    if c.owed.Nothing? && |c.last| >= 3 + x.cfg.line.check.rcBytes
    then [c.last[3..|c.last| - x.cfg.line.check.rcBytes]] + c.chunks
    else c.chunks
  }

  /** The card has the whole command; its answer is under way. */
  ghost predicate Answering(x: Exchange, c: Card, nr: bit) {
    && c.done == x.before + [x.cmd] && c.got == []
    && (|| (c.owed.Nothing? && SendsPiece(x, c, nr) && c.vs == Flip(nr))
        || (c.owed.OwesI? && Asks(x.cfg.line.check, c) && c.chunks != [] && c.vs == nr))
  }

  /** The card waits for the rest of the command. */
  ghost predicate Collecting(x: Exchange, c: Card, nr: bit) {
    var check := x.cfg.line.check;
    && c.done == x.before && c.chunks == [] && c.vs == nr
    && (|| (c.owed.Nothing? && c.last == Frame(check, c.nad, 0x80 + 16 * c.vr, []))
        || (c.owed.OwesR? && Asks(check, c)))
  }

  /** The host keeps to the size the card takes, or the card is just telling it another. */
  ghost predicate SizeKnown(check: Check, ifsc: nat, c: Card) {
    && 1 <= c.takes <= 254
    && if |c.last| > PCB && c.last[PCB] == 0xC1 then c.last == Frame(check, c.nad, 0xC1, [c.takes]) else ifsc <= c.takes
  }

  /** The session is about to receive `c.last`. */
  ghost predicate Linked(x: Exchange, s: Session, c: Card) {
    && |s.buf| >= BUFFER_SIZE && 1 <= s.ifsc <= 254 && SizeKnown(x.cfg.line.check, s.ifsc, c) && GoodPlan(c.plan)
    && (forall i | 0 <= i < |c.chunks| :: FitsFrame(x.cfg.line, c.chunks[i]))
    && |s.rbuf| <= x.cfg.room
    && match s.phase
       case Sending =>
         && s.rbuf == [] && 1 <= s.lastSend <= |s.left| && c.vr == Flip(s.ns)
         && if s.lastSend < |s.left|
            then Collecting(x, c, s.nr) && c.got + s.left[s.lastSend..] == x.cmd
            else Answering(x, c, s.nr) && Concat(Undelivered(x, c)) == Concat(Answer(x))
       case Receiving =>
         && s.left == [] && c.vr == s.ns && Answering(x, c, s.nr)
         && s.rbuf + Concat(Undelivered(x, c)) == Concat(Answer(x))
       case _ => false
  }

  /** What the card still has to do, and with it the host; it falls with every block that gets through. */
  ghost function CardWork(c: Card): nat {
    2 * |c.plan| + |c.chunks| + (if c.owed.Nothing? then 0 else 1)
  }

  ghost function Work(x: Exchange, s: Session, c: Card): nat {
    CardWork(c) + |s.left| + (if |c.done| == |x.before| then |Answer(x)| else 0)
  }

  /** The requests still to come before the R-block, the one under way included. */
  function Waits(c: Card): nat {
    if c.owed.Nothing? then 0 else 1 + LeadingRequests(c.plan)
  }

  // ---- the card's side ----

  /** A frame as the receiver at the other end takes it apart. */
  lemma FrameTakenApart(check: Check, nad: byte, pcb: byte, payload: seq<byte>)
    ensures var f := Frame(check, nad, pcb, payload);
      f[PCB] == pcb && |f| == 3 + |payload| + check.rcBytes && f[3..|f| - check.rcBytes] == payload
  {
    var f := Frame(check, nad, pcb, payload);
    assert f[PCB] == f[..3][PCB];
  }

  lemma GoodRest(c: Card)
    requires GoodPlan(c.plan)
    ensures GoodPlan(Rest(c.plan)) && (c.plan != [] ==> GoodPlan(c.plan[1..]))
  {
  }

  /** If the card makes a request for another size, it then takes that. */
  lemma EmitSize(check: Check, c: Card)
    requires GoodPlan(c.plan) && (c.owed.OwesI? ==> c.chunks != []) && !c.owed.Nothing?
    ensures 1 <= c.takes <= 254 ==> forall n: nat | n <= c.takes :: SizeKnown(check, n, Emit(check, c))
  {
    hide Frame;
    FrameTakenApart(check, c.nad, 0x80 + 16 * c.vr, []);
    if c.plan != [] && c.plan[0].Wtx? {
      FrameTakenApart(check, c.nad, 0xC3, [c.plan[0].multiplier]);
    } else if c.plan != [] && c.plan[0].Ifs? {
      FrameTakenApart(check, c.nad, 0xC1, [c.plan[0].size]);
    } else if c.owed.OwesI? {
      FrameTakenApart(check, c.nad, 64 * c.vs + (if |c.chunks| > 1 then 0x20 else 0), c.chunks[0]);
    }
  }

  /** The card owes an R-block and takes its turn. */
  lemma EmitCollecting(x: Exchange, c: Card)
    requires GoodPlan(c.plan) && c.owed.OwesR? && c.done == x.before && c.chunks == []
    ensures var d := Emit(x.cfg.line.check, c);
      && Collecting(x, d, c.vs) && GoodPlan(d.plan) && d.vr == c.vr && d.got == c.got
      && CardWork(d) < CardWork(c) && Waits(d) + 1 == Waits(c)
      && (1 <= c.takes <= 254 ==> forall n: nat | n <= c.takes :: SizeKnown(x.cfg.line.check, n, d))
  {
    EmitSize(x.cfg.line.check, c);
    GoodRest(c);
    if c.plan != [] && c.plan[0].Wtx? {
      FrameTakenApart(x.cfg.line.check, c.nad, 0xC3, [c.plan[0].multiplier]);
    } else if c.plan != [] && c.plan[0].Ifs? {
      FrameTakenApart(x.cfg.line.check, c.nad, 0xC1, [c.plan[0].size]);
    }
  }

  /** The card owes an I-block and takes its turn. */
  lemma EmitAnswering(x: Exchange, c: Card)
    requires GoodPlan(c.plan) && c.owed.OwesI? && c.done == x.before + [x.cmd] && c.got == [] && c.chunks != []
    requires forall i | 0 <= i < |c.chunks| :: FitsFrame(x.cfg.line, c.chunks[i])
    ensures var d := Emit(x.cfg.line.check, c);
      && Answering(x, d, c.vs) && GoodPlan(d.plan) && d.vr == c.vr && Undelivered(x, d) == c.chunks
      && (forall i | 0 <= i < |d.chunks| :: FitsFrame(x.cfg.line, d.chunks[i]))
      && CardWork(d) < CardWork(c)
      && (1 <= c.takes <= 254 ==> forall n: nat | n <= c.takes :: SizeKnown(x.cfg.line.check, n, d))
  {
    hide Frame, FitsFrame;
    EmitSize(x.cfg.line.check, c);
    GoodRest(c);
    var check := x.cfg.line.check;
    if c.plan != [] && c.plan[0].Wtx? {
      FrameTakenApart(check, c.nad, 0xC3, [c.plan[0].multiplier]);
    } else if c.plan != [] && c.plan[0].Ifs? {
      FrameTakenApart(check, c.nad, 0xC1, [c.plan[0].size]);
    } else {
      FrameTakenApart(check, c.nad, 64 * c.vs + (if |c.chunks| > 1 then 0x20 else 0), c.chunks[0]);
    }
  }

  /** A new I-block of the host: the card takes its bytes, and executes the command at the last one. */
  lemma CardTakesI(x: Exchange, s: Session, c: Card)
    requires Fair(x) && s.phase == Sending && s.rbuf == [] && |s.buf| >= BUFFER_SIZE
    requires InSync(s.ns, s.nr, s.ifsc, c.(got := [])) && c.done == x.before
    requires s.left != [] && c.got + s.left == x.cmd
    ensures var t := SendI(x.cfg, s);
      var d := CardStep(x.cfg.line.check, x.app, c, t.out);
      && Linked(x, t, d) && t.left == s.left
      && Work(x, t, d) <= 2 * |c.plan| + |s.left| + |Answer(x)|
      && (t.lastSend < |t.left| ==> Waits(d) == LeadingRequests(c.plan))
  {
    hide Frame, Emit;
    var check := x.cfg.line.check;
    var t := SendI(x.cfg, s);
    var n := Min(|s.left|, s.ifsc);
    var more := |s.left| > s.ifsc;
    NumberedI(more, s.ns, s.nr);
    var pcb := Numbered(if more then 0x20 else 0x00, s.ns, s.nr);
    assert t.out == Frame(check, x.cfg.dad, pcb, s.left[..n]);
    FrameTakenApart(check, x.cfg.dad, pcb, s.left[..n]);
    var got := c.got + s.left[..n];
    if more {
      var e := c.(vr := Flip(c.vr), got := got, owed := OwesR);
      EmitCollecting(x, e);
      assert got + s.left[n..] == x.cmd;
    } else {
      assert s.left[..n] == s.left && got == x.cmd;
      var e := c.(vr := Flip(c.vr), got := [], done := c.done + [got], chunks := x.app(c.done + [got]), owed := OwesI);
      EmitAnswering(x, e);
    }
  }

  // ---- the host's side, block by block ----

  /** The session that has taken in an intact frame. */
  function Taken(s: Session, f: seq<byte>): Session
    requires |s.buf| >= BUFFER_SIZE
  {
    Heed(Loaded(s, f), f)
  }

  /** Same conversation, same place in it. */
  ghost predicate SamePlace(s: Session, t: Session) {
    && t.phase == s.phase && t.ns == s.ns && t.nr == s.nr && t.left == s.left && t.lastSend == s.lastSend
    && t.rbuf == s.rbuf && t.sentLength == s.sentLength && t.resyncs == s.resyncs
  }

  /** The block that answers a request of the card. */
  lemma ResponseBlock(cfg: Config, s: Session, pcb: byte, p: seq<byte>)
    requires |p| == 1 && s.ifsc >= 1 && pcb in {0xC1, 0xC3}
    ensures Respond(cfg, s, pcb, p).s.out == Frame(cfg.line.check, cfg.dad, pcb + 0x20, p)
  {
    hide Frame;
    assert p[..1] == p;
  }

  /** A request of the card is answered, and nothing else moves. */
  lemma HostAnswersRequest(x: Exchange, s: Session, c: Card)
    requires Linked(x, s, c) && Asks(x.cfg.line.check, c)
    ensures var r := Step(x.cfg, s, Delivery(c.last));
      && r.Go? && SamePlace(s, r.s) && 1 <= r.s.ifsc <= 254 && r.s.retries == x.cfg.tries && |r.s.buf| >= BUFFER_SIZE
      && r.s.ifsc == (if c.last[PCB] == 0xC1 then c.last[3] else s.ifsc)
      && r.s.wtx == (if c.last[PCB] == 0xC3 then c.last[3] else 0)
      && exists pcb: byte, p: seq<byte> :: pcb in {0xE1, 0xE3} && r.s.out == Frame(x.cfg.line.check, x.cfg.dad, pcb, p)
  {
    hide Step, Frame, CardStep, Build, Resync, OnR, OnI, Answering, Collecting;
    var p := [c.last[3]];
    var pcb: byte := if c.last == Frame(x.cfg.line.check, c.nad, 0xC3, p) then 0xC3 else 0xC1;
    StepOnFrame(x.cfg, s, c.nad, pcb, p);
    var u := Taken(s, c.last);
    assert u.buf[DATA] == u.buf[DATA..DATA + 1][0] == p[0];
    var v := if pcb == 0xC1 then SetIfsc(u, p[0]) else u.(wtx := p[0]);
    ResponseBlock(x.cfg, v, pcb, p);
    assert OnS(x.cfg, u, pcb) == Respond(x.cfg, v, pcb, p);
    assert pcb + 0x20 in {0xE1, 0xE3};
  }

  lemma CardProceeds(x: Exchange, c: Card, pcb: byte, p: seq<byte>)
    requires Fair(x) && pcb in {0xE1, 0xE3} && (c.owed.OwesI? ==> c.chunks != [])
    ensures CardStep(x.cfg.line.check, x.app, c, Frame(x.cfg.line.check, x.cfg.dad, pcb, p)) ==
      Emit(x.cfg.line.check, c)
  {
    hide Frame, Emit;
    FrameTakenApart(x.cfg.line.check, x.cfg.dad, pcb, p);
  }

  lemma OnAsk(x: Exchange, s: Session, c: Card)
    requires Fair(x) && Linked(x, s, c) && Asks(x.cfg.line.check, c) && !c.owed.Nothing?
    ensures var r := Step(x.cfg, s, Delivery(c.last));
      r.Go? && SamePlace(s, r.s) && r.s.retries == x.cfg.tries
      && var d := CardStep(x.cfg.line.check, x.app, c, r.s.out);
         Linked(x, r.s, d) && Work(x, r.s, d) < Work(x, s, c) && (c.owed.OwesR? ==> Waits(d) + 1 == Waits(c))
  {
    hide Step, Frame, CardStep, Emit;
    HostAnswersRequest(x, s, c);
    var t := Step(x.cfg, s, Delivery(c.last)).s;
    var pcb: byte, p: seq<byte> :| pcb in {0xE1, 0xE3} && t.out == Frame(x.cfg.line.check, x.cfg.dad, pcb, p);
    CardProceeds(x, c, pcb, p);
    if c.owed.OwesR? {
      EmitCollecting(x, c);
    } else {
      EmitAnswering(x, c);
    }
  }

  /** The session after the last I-block was acknowledged by an R-block. */
  function Acknowledged(u: Session): Session {
    Ack(u).(sentLength := u.sentLength + u.lastSend, ns := Flip(u.ns))
  }

  /** An R-block asking for the next number makes the host send the next part of the command. */
  lemma HostSendsNext(cfg: Config, s: Session, nad: byte, vr: bit)
    requires |s.buf| >= BUFFER_SIZE && s.phase == Sending && s.lastSend < |s.left| && vr == Flip(s.ns)
    ensures var f := Frame(cfg.line.check, nad, 0x80 + 16 * vr, []);
      Step(cfg, s, Delivery(f)) == Go(Refill(cfg, SendI(cfg, Acknowledged(Taken(s, f)))))
  {
    hide Step, Frame, Put, OnR, TypeOf, SeqOf, SendI, Acknowledged;
    RControl(vr);
    StepOnFrame(cfg, s, nad, 0x80 + 16 * vr, []);
    OnRNext(cfg, Taken(s, Frame(cfg.line.check, nad, 0x80 + 16 * vr, [])), 0x80 + 16 * vr);
  }

  lemma OnRNext(cfg: Config, u: Session, pcb: byte)
    requires u.phase == Sending && u.lastSend < |u.left| && SeqOf(pcb) != u.ns && LowNibble(pcb) == 0
    ensures OnR(cfg, u, pcb) == Go(Refill(cfg, SendI(cfg, Acknowledged(u))))
  {
    hide Put, SeqOf, SendI;
  }

  lemma RControl(vr: bit)
    ensures var pcb := 0x80 + 16 * vr; TypeOf(pcb) == RBlock && SeqOf(pcb) == vr && LowNibble(pcb) == 0
  {
  }

  /** The card acknowledges a block of a chain: the host sends the next. */
  lemma OnAcknowledge(x: Exchange, s: Session, c: Card)
    requires Fair(x) && Linked(x, s, c) && s.phase == Sending && s.lastSend < |s.left| && c.owed.Nothing?
    ensures var r := Step(x.cfg, s, Delivery(c.last));
      r.Go? && r.s.retries == x.cfg.tries && r.s.resyncs == s.resyncs
      && var d := CardStep(x.cfg.line.check, x.app, c, r.s.out);
         Linked(x, r.s, d) && Work(x, r.s, d) < Work(x, s, c)
  {
    hide Step, Frame, Put, CardStep;
    HostSendsNext(x.cfg, s, c.nad, c.vr);
    var u := Taken(s, c.last);
    SendsFrom(x, s, c, u);
  }

  lemma SendsFrom(x: Exchange, s: Session, c: Card, u: Session)
    requires Fair(x) && Linked(x, s, c) && s.phase == Sending && s.lastSend < |s.left| && c.owed.Nothing?
    requires |u.buf| >= |s.buf| && u == s.(retries := u.retries, wtx := 0, buf := u.buf, log := u.log)
    ensures var t := Refill(x.cfg, SendI(x.cfg, Acknowledged(u)));
      t.resyncs == s.resyncs
      && var d := CardStep(x.cfg.line.check, x.app, c, t.out);
         Linked(x, t, d) && Work(x, t, d) < Work(x, s, c)
  {
    hide Frame, Build, CardStep;
    CardTakesI(x, Acknowledged(u), c);
  }

  // ---- a piece of the answer arrives ----

  /** The session after a piece of the answer, before it is stored. */
  function Listening(u: Session): Session {
    (if u.phase == Sending then Ack(u).(ns := Flip(u.ns)) else u).(phase := Receiving)
  }

  function StoredPiece(t: Session, piece: seq<byte>): Session {
    t.(nr := Flip(t.nr), rbuf := t.rbuf + piece, log := t.log + [Stored])
  }

  function AfterPiece(cfg: Config, t: Session, more: bool, piece: seq<byte>): Next {
    if |t.rbuf| + |piece| > cfg.room then Failed(Kill(t.(nr := Flip(t.nr))))
    else if more then Go(Refill(cfg, SendR(cfg, StoredPiece(t, piece), 0)))
    else Done(StoredPiece(t, piece))
  }

  /** An I-block with the number the host expects. */
  lemma HostTakesPiece(cfg: Config, s: Session, nad: byte, more: bool, piece: seq<byte>)
    requires |s.buf| >= BUFFER_SIZE && FitsFrame(cfg.line, piece)
    ensures var f := Frame(cfg.line.check, nad, 64 * s.nr + (if more then 0x20 else 0), piece);
      Step(cfg, s, Delivery(f)) == AfterPiece(cfg, Listening(Taken(s, f)), more, piece)
  {
    hide Step, Frame, Put, TypeOf, SeqOf, HasMore, OnI, AfterPiece, Listening;
    var pcb: byte := 64 * s.nr + (if more then 0x20 else 0);
    StepOnFrame(cfg, s, nad, pcb, piece);
    PieceControl(s.nr, more);
    OnIPiece(cfg, Taken(s, Frame(cfg.line.check, nad, pcb, piece)), pcb, more, piece);
  }

  lemma OnIPiece(cfg: Config, u: Session, pcb: byte, more: bool, piece: seq<byte>)
    requires |u.buf| >= BUFFER_SIZE && u.buf[DATA..DATA + u.buf[LEN]] == piece
    requires SeqOf(pcb) == u.nr && (HasMore(pcb) <==> more)
    ensures OnI(cfg, u, pcb) == AfterPiece(cfg, Listening(u), more, piece)
  {
    hide Put, SeqOf, HasMore;
  }

  lemma PieceControl(nr: bit, more: bool)
    ensures var pcb := 64 * nr + (if more then 0x20 else 0);
      TypeOf(pcb) == IBlock && SeqOf(pcb) == nr && (HasMore(pcb) <==> more)
  {
  }

  /** The host asks for the next piece: the card sends it, or first makes a request. */
  lemma CardContinues(x: Exchange, c: Card, b: seq<byte>, nr: bit)
    requires Answering(x, c, nr) && c.owed.Nothing? && c.chunks != [] && GoodPlan(c.plan) && Fair(x)
    requires forall i | 0 <= i < |c.chunks| :: FitsFrame(x.cfg.line, c.chunks[i])
    requires b == Frame(x.cfg.line.check, x.cfg.dad, 0x80 + 16 * Flip(nr), [])
    ensures var d := CardStep(x.cfg.line.check, x.app, c, b);
      && Answering(x, d, Flip(nr)) && GoodPlan(d.plan) && d.vr == c.vr && Undelivered(x, d) == c.chunks
      && (forall i | 0 <= i < |d.chunks| :: FitsFrame(x.cfg.line, d.chunks[i]))
      && CardWork(d) <= CardWork(c)
      && (1 <= c.takes <= 254 ==> forall n: nat | n <= c.takes :: SizeKnown(x.cfg.line.check, n, d))
  {
    hide Frame, Emit, SizeKnown;
    var check := x.cfg.line.check;
    FrameTakenApart(check, x.cfg.dad, 0x80 + 16 * Flip(nr), []);
    var piece := c.last[3..|c.last| - check.rcBytes];
    FrameTakenApart(check, c.nad, 64 * nr + 0x20, piece);
    EmitAnswering(x, c.(owed := OwesI));
  }

  /** What a call with a conforming card comes to. */
  ghost predicate Concluded(x: Exchange, r: Next, c: Card) {
    && c.done == x.before + [x.cmd]
    && if |Concat(Answer(x))| <= x.cfg.room
       then r.Done? && r.s.rbuf == Concat(Answer(x)) && InSync(r.s.ns, r.s.nr, r.s.ifsc, c)
       else r.Failed?
  }

  /** The piece on its way, with what the host has and what the card keeps, is the answer. */
  lemma PieceInAnswer(x: Exchange, s: Session, c: Card)
    requires Linked(x, s, c) && c.done == x.before + [x.cmd] && c.owed.Nothing?
    ensures var piece := c.last[3..|c.last| - x.cfg.line.check.rcBytes];
      && Answering(x, c, s.nr) && Undelivered(x, c) == [piece] + c.chunks
      && s.rbuf + piece + Concat(c.chunks) == Concat(Answer(x))
  {
    hide Frame;
    var piece := c.last[3..|c.last| - x.cfg.line.check.rcBytes];
    assert Concat([piece] + c.chunks) == piece + Concat(c.chunks);
    assert s.rbuf + (piece + Concat(c.chunks)) == s.rbuf + piece + Concat(c.chunks);
  }

  /** The session that waits for more, or that has it all, is where the card is. */
  lemma ListeningFacts(x: Exchange, s: Session, c: Card)
    requires Linked(x, s, c) && c.done == x.before + [x.cmd] && c.owed.Nothing?
    ensures var t := Listening(Taken(s, c.last));
      && |t.buf| >= BUFFER_SIZE && t.phase == Receiving && t.ns == c.vr && t.nr == s.nr && t.rbuf == s.rbuf
      && t.left == []
      && t.ifsc == s.ifsc && t.resyncs == s.resyncs && t.sentLength == s.sentLength
  {
    hide Frame;
  }

  /** The R-block that asks for the next piece. */
  lemma NextBlock(cfg: Config, t: Session)
    ensures SendR(cfg, t, 0).out == Frame(cfg.line.check, cfg.dad, 0x80 + 16 * t.nr, [])
  {
    hide Frame;
    NumberedR(0, t.ns, t.nr);
    var none: seq<byte> := [];
    assert none[..0] == none;
  }

  /** While a piece is under way no other size is asked for. */
  lemma SizeWithPiece(x: Exchange, s: Session, c: Card)
    requires Linked(x, s, c) && c.done == x.before + [x.cmd] && c.owed.Nothing?
    ensures s.ifsc <= c.takes && 1 <= c.takes <= 254
  {
    hide Frame, Undelivered;
    var piece := c.last[3..|c.last| - x.cfg.line.check.rcBytes];
    FrameTakenApart(x.cfg.line.check, c.nad, 64 * s.nr + (if c.chunks != [] then 0x20 else 0), piece);
  }

  lemma PieceStored(x: Exchange, s: Session, c: Card)
    requires Fair(x) && Linked(x, s, c) && c.done == x.before + [x.cmd] && c.owed.Nothing? && c.chunks != []
    requires |s.rbuf| + |c.last| - 3 - x.cfg.line.check.rcBytes <= x.cfg.room
    ensures var piece := c.last[3..|c.last| - x.cfg.line.check.rcBytes];
      var t := Refill(x.cfg, SendR(x.cfg, StoredPiece(Listening(Taken(s, c.last)), piece), 0));
      var d := CardStep(x.cfg.line.check, x.app, c, t.out);
      && t.resyncs == s.resyncs && t.sentLength == s.sentLength && t.phase == Receiving && t.retries == x.cfg.tries
      && Linked(x, t, d) && Work(x, t, d) < Work(x, s, c)
  {
    hide Frame, Build, CardStep, Taken, Listening, SizeKnown, FitsFrame;
    var piece := c.last[3..|c.last| - x.cfg.line.check.rcBytes];
    SizeWithPiece(x, s, c);
    PieceInAnswer(x, s, c);
    ListeningFacts(x, s, c);
    var u := StoredPiece(Listening(Taken(s, c.last)), piece);
    NextBlock(x.cfg, u);
    CardContinues(x, c, SendR(x.cfg, u, 0).out, s.nr);
  }

  /** The host receives a piece of the answer. */
  lemma OnPiece(x: Exchange, s: Session, c: Card)
    requires Fair(x) && Linked(x, s, c) && c.done == x.before + [x.cmd] && c.owed.Nothing?
    ensures var r := Step(x.cfg, s, Delivery(c.last));
      && r.s.resyncs == s.resyncs && r.s.sentLength == s.sentLength
      && if r.Go?
         then r.s.retries == x.cfg.tries && r.s.phase == Receiving
              && var d := CardStep(x.cfg.line.check, x.app, c, r.s.out);
                 Linked(x, r.s, d) && Work(x, r.s, d) < Work(x, s, c)
         else Concluded(x, r, c)
  {
    hide Step, Frame, SendR, CardStep, Taken, Listening, Work;
    var piece := c.last[3..|c.last| - x.cfg.line.check.rcBytes];
    HostTakesPiece(x.cfg, s, c.nad, c.chunks != [], piece);
    PieceInAnswer(x, s, c);
    ListeningFacts(x, s, c);
    if |s.rbuf| + |piece| <= x.cfg.room && c.chunks != [] {
      PieceStored(x, s, c);
    }
  }

  // ---- a delivery that does not pass the checksum ----

  /** The R-block that asks for the last block again. */
  lemma AgainBlock(cfg: Config, t: Session)
    ensures SendR(cfg, t, EDC_ERROR).out == Frame(cfg.line.check, cfg.dad, 0x80 + 16 * t.nr + 1, [])
  {
    hide Frame;
    NumberedR(1, t.ns, t.nr);
    var none: seq<byte> := [];
    assert none[..0] == none;
  }

  /** The card sends its last block again, whichever it was. */
  lemma CardRepeats(x: Exchange, s: Session, c: Card, b: seq<byte>)
    requires Fair(x) && Linked(x, s, c)
    requires b == Frame(x.cfg.line.check, x.cfg.dad, 0x80 + 16 * s.nr + 1, [])
    ensures CardStep(x.cfg.line.check, x.app, c, b) == c
  {
    hide Frame, Emit;
    var check := x.cfg.line.check;
    FrameTakenApart(check, x.cfg.dad, 0x80 + 16 * s.nr + 1, []);
    FrameTakenApart(check, c.nad, 0x80 + 16 * c.vr, []);
  }

  /** An unreadable delivery: the host asks for the block again exactly while retries last and no
      part of a chain was acknowledged; otherwise it gives the exchange up for a resync. */
  lemma OnUnreadable(cfg: Config, s: Session, data: seq<byte>)
    requires |s.buf| >= BUFFER_SIZE && Unreadable(cfg.line, data)
    requires 1 <= s.retries < 0x1_0000_0000 && s.phase in {Sending, Receiving}
    ensures var r := Step(cfg, s, Delivery(data));
      if s.retries >= 2 && s.sentLength == 0 then
        && r.Go? && SamePlace(s, r.s) && r.s.ifsc == s.ifsc && r.s.retries == s.retries - 1 && |r.s.buf| >= BUFFER_SIZE
        && r.s.out == Frame(cfg.line.check, cfg.dad, 0x80 + 16 * s.nr + 1, [])
      else if s.resyncs == 0 then r.Failed?
      else
        && r.Go? && r.s.phase == Resynch && r.s.resyncs == s.resyncs - 1 && r.s.ns == 0 && r.s.nr == 0
        && r.s.out == Frame(cfg.line.check, cfg.dad, 0xC0, [])
  {
    hide Frame, Verify, Receive;
    var received := Receive(cfg.line, Delivery(data), s.buf);
    var u := s.(retries := Decrement(s.retries), wtx := 0, buf := received.buf);
    assert Decrement(s.retries) == s.retries - 1;
    AgainBlock(cfg, u);
    var none: seq<byte> := [];
    assert none[..0] == none;
  }

  // ---- whole calls ----

  /** The disturbances are within what the retries cover, and in a chain they stop before the first
      of its blocks is acknowledged. */
  ghost predicate Covered(x: Exchange, s: Session, c: Card, noise: seq<Fate>) {
    && Tolerable(x.cfg.line, noise, s.retries, x.cfg.tries) && 1 <= s.retries < 0x1_0000_0000
    && (AllIntact(noise)
        || (s.sentLength == 0 && (s.phase == Sending && s.lastSend < |s.left| ==> Early(noise, Waits(c)))))
  }

  /** One exchange over a disturbed link brings the conversation forward or to its end. */
  lemma Round(x: Exchange, s: Session, c: Card, noise: seq<Fate>)
    requires Fair(x) && Linked(x, s, c) && Covered(x, s, c, noise)
    ensures var r := Step(x.cfg, s, Deliver(c, noise));
      && r.s.resyncs == s.resyncs
      && if r.Go?
         then var d := CardStep(x.cfg.line.check, x.app, c, r.s.out);
              && Linked(x, r.s, d) && Covered(x, r.s, d, Rest(noise))
              && Work(x, r.s, d) + |Rest(noise)| < Work(x, s, c) + |noise|
         else Concluded(x, r, c)
  {
    hide Step, Frame, CardStep, Work, Unreadable;
    if noise != [] && noise[0].Garbled? {
      OnUnreadable(x.cfg, s, noise[0].data);
      var t := Step(x.cfg, s, Deliver(c, noise)).s;
      CardRepeats(x, s, c, t.out);
      SamePlaceLinked(x, s, t, c);
    } else {
      assert AllIntact(noise) ==> AllIntact(Rest(noise));
      if !c.owed.Nothing? {
        OnAsk(x, s, c);
      } else if s.phase == Sending && s.lastSend < |s.left| {
        OnAcknowledge(x, s, c);
      } else {
        OnPiece(x, s, c);
      }
    }
  }

  lemma SamePlaceLinked(x: Exchange, s: Session, t: Session, c: Card)
    requires Linked(x, s, c) && SamePlace(s, t) && t.ifsc == s.ifsc && |t.buf| >= BUFFER_SIZE
    ensures Linked(x, t, c) && Work(x, t, c) == Work(x, s, c)
  {
    hide Frame, Answering, Collecting, Undelivered;
  }

  /** From any point of the conversation to its end: the number of exchanges it takes. */
  lemma {:induction false} Converse(x: Exchange, s: Session, c: Card, noise: seq<Fate>) returns (n: nat)
    requires Fair(x) && Linked(x, s, c) && Covered(x, s, c, noise)
    ensures var r := Run(x.cfg, s, Answers(x.cfg, x.app, s, c, noise, n));
      Concluded(x, r, CardAfter(x.cfg, x.app, s, c, noise, n)) && r.s.resyncs == s.resyncs
    decreases Work(x, s, c) + |noise|
  {
    hide Step, CardStep, Concluded, Answering, Collecting, Undelivered, Covered, Work;
    Round(x, s, c, noise);
    var r := Step(x.cfg, s, Deliver(c, noise));
    if r.Go? {
      var d := CardStep(x.cfg.line.check, x.app, c, r.s.out);
      var m := Converse(x, r.s, d, Rest(noise));
      n := m + 1;
      var answers := Answers(x.cfg, x.app, s, c, noise, n);
      assert answers[1..] == Answers(x.cfg, x.app, r.s, d, Rest(noise), m);
    } else {
      n := 1;
      assert Answers(x.cfg, x.app, s, c, noise, n) == [Deliver(c, noise)];
    }
  }

  /** One call: what the host makes of the card's deliveries in `n` exchanges, and the card after them. */
  function Call(cfg: Config, app: App, host: Host, buf: seq<byte>, c: Card, cmd: seq<byte>, noise: seq<Fate>, n: nat)
    : (Next, Card)
    requires |buf| >= BUFFER_SIZE && forall h :: app(h) != []
  {
    var s := Start(cfg, host.ns, host.nr, host.ifsc, host.wtx, buf, cmd);
    var d := CardStep(cfg.line.check, app, c, s.out);
    (Run(cfg, s, Answers(cfg, app, s, d, noise, n)), CardAfter(cfg, app, s, d, noise, n))
  }

  /** What the protocol object keeps from call to call. */
  datatype Host = Host(ns: bit, nr: bit, ifsc: nat, wtx: nat)

  function HostAfter(r: Next): Host {
    Host(r.s.ns, r.s.nr, r.s.ifsc, r.s.wtx)
  }

  /** `t1_transceive` is a plain call. Over a link that loses nothing the card executes the command
      once, the host returns exactly its answer if that fits, and both stay in step. Unreadable
      deliveries, never more in a row than the retries cover, change nothing; if the command is a
      chain they must come before its first acknowledgement, which the card sends after
      `LeadingRequests` requests of its own. No resync is asked for. */
  lemma TransceiveIsACall(x: Exchange, host: Host, buf: seq<byte>, c: Card, noise: seq<Fate>) returns (n: nat)
    requires Conforming(x.cfg.line, x.app) && 1 <= x.cfg.tries < 0x1_0000_0000
    requires x.cmd != [] && InSync(host.ns, host.nr, host.ifsc, c) && c.done == x.before && |buf| >= BUFFER_SIZE
    requires Tolerable(x.cfg.line, noise, x.cfg.tries, x.cfg.tries)
      && (|x.cmd| <= host.ifsc || Early(noise, LeadingRequests(c.plan)))
    ensures var (r, d) := Call(x.cfg, x.app, host, buf, c, x.cmd, noise, n);
      var answer := Concat(x.app(x.before + [x.cmd]));
      && d.done == x.before + [x.cmd] && r.s.resyncs == RESYNCS
      && if |answer| <= x.cfg.room
         then r.Done? && r.s.rbuf == answer && InSync(r.s.ns, r.s.nr, r.s.ifsc, d)
         else r.Failed?
  {
    hide SendI, CardStep, Linked, Step;
    var s0 := Session(
      Sending, host.ns, host.nr, host.ifsc, host.wtx, x.cfg.tries, RESYNCS, 0, 0, x.cmd, [], buf, [], []);
    assert c.got + x.cmd == x.cmd;
    CardTakesI(x, s0, c);
    var s := Start(x.cfg, host.ns, host.nr, host.ifsc, host.wtx, buf, x.cmd);
    var d := CardStep(x.cfg.line.check, x.app, c, s.out);
    StartCovered(x, s0, d, noise, LeadingRequests(c.plan));
    n := Converse(x, s, d, noise);
  }

  lemma StartCovered(x: Exchange, s: Session, c: Card, noise: seq<Fate>, k: nat)
    requires 1 <= x.cfg.tries < 0x1_0000_0000 && s.retries == x.cfg.tries && s.sentLength == 0
    requires Tolerable(x.cfg.line, noise, x.cfg.tries, x.cfg.tries) && (|s.left| <= s.ifsc || Early(noise, k))
    requires SendI(x.cfg, s).lastSend < |s.left| ==> Waits(c) == k
    ensures Covered(x, SendI(x.cfg, s), c, noise) && SendI(x.cfg, s).resyncs == s.resyncs
  {
    hide Frame;
  }

  /** A row of calls over the same protocol object and card, each with its own disturbances; `ns` says
      how many exchanges each takes. */
  function Calls(cfg: Config, app: App, host: Host, buf: seq<byte>, c: Card,
                 cmds: seq<seq<byte>>, noises: seq<seq<Fate>>, ns: seq<nat>): (seq<Next>, Card)
    requires |buf| >= BUFFER_SIZE && |ns| == |noises| == |cmds| && forall h :: app(h) != []
    decreases |cmds|
  {
    if cmds == [] then ([], c)
    else
      var (r, d) := Call(cfg, app, host, buf, c, cmds[0], noises[0], ns[0]);
      var (rest, e) := Calls(cfg, app, HostAfter(r), buf, d, cmds[1..], noises[1..], ns[1..]);
      ([r] + rest, e)
  }

  /** What `TransceiveIsACall` tolerates, for each call from where the ones before it leave both. */
  ghost predicate Bearable(cfg: Config, app: App, host: Host, buf: seq<byte>, c: Card,
                           cmds: seq<seq<byte>>, noises: seq<seq<Fate>>)
    requires |buf| >= BUFFER_SIZE && |noises| == |cmds| && forall h :: app(h) != []
    decreases |cmds|
  {
    cmds == [] ||
    (&& Tolerable(cfg.line, noises[0], cfg.tries, cfg.tries)
     && (|cmds[0]| <= host.ifsc || Early(noises[0], LeadingRequests(c.plan)))
     && forall n: nat ::
          var (r, d) := Call(cfg, app, host, buf, c, cmds[0], noises[0], n);
          r.Done? ==> Bearable(cfg, app, HostAfter(r), buf, d, cmds[1..], noises[1..]))
  }

  /** Every command is there and its answer will fit. */
  ghost predicate Sendable(app: App, done: seq<seq<byte>>, cmds: seq<seq<byte>>, room: nat)
    decreases |cmds|
  {
    cmds == [] ||
    (cmds[0] != [] && |Concat(app(done + [cmds[0]]))| <= room && Sendable(app, done + [cmds[0]], cmds[1..], room))
  }

  /** Each call ended well, with the card's answer to its command and the commands before it. */
  ghost predicate Answered(app: App, done: seq<seq<byte>>, cmds: seq<seq<byte>>, results: seq<Next>)
    decreases |cmds|
  {
    && |results| == |cmds|
    && (cmds == [] ||
        (results[0].Done? && results[0].s.rbuf == Concat(app(done + [cmds[0]]))
         && Answered(app, done + [cmds[0]], cmds[1..], results[1..])))
  }

  /** Any sequence of transceives stays correct, over a link that may disturb every one of them: every
      command is executed once, in order, and every call returns exactly its own answer. */
  lemma {:induction false} AnyNumberOfCalls(cfg: Config, app: App, host: Host, buf: seq<byte>, c: Card,
                                            cmds: seq<seq<byte>>, noises: seq<seq<Fate>>)
    returns (ns: seq<nat>)
    requires Conforming(cfg.line, app) && 1 <= cfg.tries < 0x1_0000_0000 && |buf| >= BUFFER_SIZE
    requires InSync(host.ns, host.nr, host.ifsc, c) && Sendable(app, c.done, cmds, cfg.room)
    requires |noises| == |cmds| && Bearable(cfg, app, host, buf, c, cmds, noises)
    ensures |ns| == |cmds|
    ensures var (results, d) := Calls(cfg, app, host, buf, c, cmds, noises, ns);
      d.done == c.done + cmds && Answered(app, c.done, cmds, results)
    decreases |cmds|
  {
    hide Call, InSync, Tolerable, Early, LeadingRequests;
    if cmds == [] {
      ns := [];
    } else {
      var n := TransceiveIsACall(Exchange(cfg, app, c.done, cmds[0]), host, buf, c, noises[0]);
      var (r, d) := Call(cfg, app, host, buf, c, cmds[0], noises[0], n);
      var ms := AnyNumberOfCalls(cfg, app, HostAfter(r), buf, d, cmds[1..], noises[1..]);
      ns := [n] + ms;
      assert ns[1..] == ms;
      assert c.done + [cmds[0]] + cmds[1..] == c.done + cmds;
      var (rest, e) := Calls(cfg, app, HostAfter(r), buf, d, cmds[1..], noises[1..], ms);
      assert ([r] + rest)[1..] == rest;
    }
  }
}
