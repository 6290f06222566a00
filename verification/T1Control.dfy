/** What the protocol object does beside `t1_transceive`, seen on the line: asking for a resync,
    negotiating the size of its own information field, and parameters. */
module T1Control {
  import opened Bytes
  import opened Checksum
  import opened T1Block
  import opened T1Session
  import opened T1Protocol
  import opened T1Rules
  import opened T1Safety
  import opened T1Card
  import opened T1Conformance

  // ---- asking for a resync ----

  /** A delivery of which exactly four bytes are read. */
  predicate FourBytes(line: Line, raw: Raw) {
    raw.Delivery? && |raw.data| >= 4 && (line.blockOriented || (raw.data[LEN] == 0 && line.check.rcBytes == 1))
  }

  /** Four bytes with control byte 0xE0 and their checksum at the end. */
  predicate AnswersResync(line: Line, raw: Raw) {
    var c := line.check.rcBytes;
    FourBytes(line, raw) && raw.data[PCB] == 0xE0 && raw.data[4 - c..4] == line.check.sum(raw.data[..4 - c])
  }

  /** One of the first `tries` deliveries answers, and those before it had four bytes. */
  ghost predicate AnsweredAmong(line: Line, answers: seq<Raw>, tries: nat) {
    exists i :: 0 <= i < tries && AnsweredAt(line, answers, i)
  }

  ghost predicate AnsweredAt(line: Line, answers: seq<Raw>, i: nat) {
    i < |answers| && AnswersResync(line, answers[i]) && forall j | 0 <= j < i :: FourBytes(line, answers[j])
  }

  lemma FourReceived(line: Line, raw: Raw, nad: byte)
    ensures var r := ReceiveInto(line, raw, ResyncRequest(line.check, nad), 4);
      && ((r.Got? && r.n == 4) <==> FourBytes(line, raw))
      && (FourBytes(line, raw) ==>
            (Verify(line.check, r.buf, 4) && r.buf[PCB] == 0xE0 <==> AnswersResync(line, raw)))
  {
    hide Frame;
    if FourBytes(line, raw) {
      var four := raw.data[..4];
      var request := ResyncRequest(line.check, nad);
      assert Overlay(request, four) == four;
      var c := line.check.rcBytes;
      assert four[4 - c..4] == raw.data[4 - c..4] && four[..4 - c] == raw.data[..4 - c];
    }
  }

  lemma {:induction false} AskExactly(line: Line, nad: byte, answers: seq<Raw>, tries: nat)
    ensures var a := AskForResync(line, nad, answers, tries);
      && (a.answered <==> AnsweredAmong(line, answers, tries))
      && a.requests <= tries && (tries > 0 ==> a.requests > 0)
      && (a.answered ==> AnsweredAt(line, answers, a.requests - 1))
      && a.rest == if a.requests <= |answers| then answers[a.requests..] else []
    decreases tries
  {
    hide FourBytes, AnswersResync, ReceiveInto, Verify, ResyncRequest;
    if tries > 0 {
      FourReceived(line, NextOf(answers), nad);
      AskUnfolds(line, nad, answers, tries);
      var rest := RestOf(answers);
      AskExactly(line, nad, rest, tries - 1);
      LaterAnswer(line, answers, tries);
    }
  }

  /** An answer later than the first delivery. */
  lemma LaterAnswer(line: Line, answers: seq<Raw>, tries: nat)
    requires tries > 0
    ensures answers == [] ==> !AnsweredAmong(line, answers, tries)
    ensures answers != [] && AnswersResync(line, answers[0]) ==>
      FourBytes(line, answers[0]) && AnsweredAt(line, answers, 0)
    ensures answers != [] ==>
      (AnsweredAmong(line, answers, tries) <==>
        || AnswersResync(line, answers[0])
        || (FourBytes(line, answers[0]) && AnsweredAmong(line, answers[1..], tries - 1)))
    ensures forall i: nat :: answers != [] && FourBytes(line, answers[0]) && AnsweredAt(line, answers[1..], i) ==>
      AnsweredAt(line, answers, i + 1)
  {
    hide FourBytes;
    if answers != [] {
      if AnswersResync(line, answers[0]) {
        assert AnsweredAt(line, answers, 0);
      }
      forall i: nat | FourBytes(line, answers[0]) && AnsweredAt(line, answers[1..], i)
        ensures AnsweredAt(line, answers, i + 1)
      {
        assert forall j | 0 < j < i + 1 :: answers[j] == answers[1..][j - 1];
      }
      if i :| 0 <= i < tries && AnsweredAt(line, answers, i) {
        if i > 0 {
          assert forall j | 0 <= j < i - 1 :: answers[1..][j] == answers[j + 1];
          assert AnsweredAt(line, answers[1..], i - 1);
        }
      }
    }
  }

  /** Resynchronizing succeeds, and the state stays, if and only if one of the first three deliveries
      answers, with only four-byte deliveries before it; otherwise it returns -1 and the protocol is
      DEAD. Up to three requests are sent, all alike, and so many deliveries are used up. */
  lemma ResyncExactly(p: Proto, nad: byte, answers: seq<Raw>)
    ensures var e := Apply(p, Operation.Resynchronize(nad), answers);
      && (if AnsweredAmong(LineOf(p), answers, 3) then e.rc == 0 && e.p == p.(ns := 0, nr := 0, wtx := 0)
          else e.rc == -1 && e.p == p.(state := Dead, ns := 0, nr := 0, wtx := 0))
      && 1 <= |e.sent| <= 3 && (e.rc == 0 ==> AnsweredAt(LineOf(p), answers, |e.sent| - 1))
      && (forall b | b in e.sent :: b == Frame(p.check, nad, 0xC0, [])[..4])
      && e.rest == if |e.sent| <= |answers| then answers[|e.sent|..] else []
  {
    hide AnsweredAmong, AnsweredAt, AskForResync, Frame;
    AskExactly(LineOf(p), nad, answers, 3);
  }

  /** A card that stays silent: the next transceive fails without sending. */
  lemma SilentCard(p: Proto, nad: byte, dad: byte, cmd: seq<byte>, room: nat, sdata: seq<byte>)
    requires |sdata| >= BUFFER_SIZE
    ensures var e := Apply(p, Operation.Resynchronize(nad), []);
      var f := Apply(e.p, Operation.Transceive(dad, cmd, room, sdata), e.rest);
      e.rc == -1 && |e.sent| == 1 && f.rc == -1 && f.sent == []
  {
    ResyncExactly(p, nad, []);
    AskUnfolds(LineOf(p), nad, [], 3);
  }

  // ---- negotiating ----

  /** A block as the card sends it. */
  datatype Block = Block(nad: byte, pcb: byte, payload: seq<byte>)

  function Deliveries(check: Check, blocks: seq<Block>): seq<Raw> {
    if blocks == [] then []
    else [Delivery(Frame(check, blocks[0].nad, blocks[0].pcb, blocks[0].payload))] + Deliveries(check, blocks[1..])
  }

  /** The answer to an IFSD request. */
  predicate IsIfsResponse(b: Block) {
    b.pcb == 0xE1 || b.pcb == 0xF1
  }

  lemma IfsResponseIs(pcb: byte)
    ensures TypeOf(pcb).SBlock? && LowNibble(pcb) == S_IFS && IsResponse(pcb) <==> pcb == 0xE1 || pcb == 0xF1
  {
  }

  /** The first block to come. */
  lemma NegotiateFirst(line: Line, retries: nat, ifsd: nat, out: seq<byte>, buf: seq<byte>, b: Block, more: seq<Raw>)
    returns (next: seq<byte>)
    requires |buf| >= BUFFER_SIZE && Passes(line, b.payload)
    ensures |next| >= BUFFER_SIZE
    ensures var f := Frame(line.check, b.nad, b.pcb, b.payload);
      var n := Negotiate(line, retries, ifsd, out, buf, [Delivery(f)] + more);
      if IsIfsResponse(b) then
        n == Negotiation(if ifsd < 256 && b.payload == [ifsd % 256] then Agreed(|f|) else Refused, 1, more)
      else if retries == 0 then n == Negotiation(Refused, 1, more)
      else
        var later := Negotiate(line, retries, ifsd, out, next, more);
        n == later.(requests := later.requests + 1)
  {
    hide Frame, Negotiate, Verify, Receive, TypeOf, LowNibble, IsResponse;
    var f := Frame(line.check, b.nad, b.pcb, b.payload);
    var answers := [Delivery(f)] + more;
    var o := Overlay(buf, out);
    FrameIsReceived(line, b.nad, b.pcb, b.payload, o);
    FrameInBuffer(line.check, b.nad, b.pcb, b.payload, o);
    next := Overlay(o, f);
    IfsResponseIs(b.pcb);
    NegotiateUnfolds(line, retries, ifsd, out, buf, answers);
    assert NextOf(answers) == Delivery(f) && RestOf(answers) == more;
    if |b.payload| == 1 {
      assert next[DATA..DATA + 1] == b.payload;
      assert next[DATA] == b.payload[0];
    }
  }

  lemma {:induction false} NegotiateSkips(line: Line, retries: nat, ifsd: nat, out: seq<byte>, buf: seq<byte>,
                                          blocks: seq<Block>, more: seq<Raw>)
    returns (next: seq<byte>)
    requires |buf| >= BUFFER_SIZE && retries > 0
    requires forall b | b in blocks :: Passes(line, b.payload) && !IsIfsResponse(b)
    ensures |next| >= BUFFER_SIZE
    ensures var n := Negotiate(line, retries, ifsd, out, buf, Deliveries(line.check, blocks) + more);
      var later := Negotiate(line, retries, ifsd, out, next, more);
      n == later.(requests := later.requests + |blocks|)
    decreases |blocks|
  {
    hide Frame, Negotiate, Passes;
    if blocks == [] {
      next := buf;
      assert Deliveries(line.check, blocks) + more == more;
    } else {
      var b := blocks[0];
      var first := Delivery(Frame(line.check, b.nad, b.pcb, b.payload));
      var rest := Deliveries(line.check, blocks[1..]) + more;
      assert Deliveries(line.check, blocks) + more == [first] + rest;
      next := NegotiateFirst(line, retries, ifsd, out, buf, b, rest);
      next := NegotiateSkips(line, retries, ifsd, out, next, blocks[1..], more);
    }
  }

  /** How a negotiation ends when blocks that are no answer, then `last`, and then `more` come. The
      requests are all alike. Agreed on the size asked for, the state stays; another size is refused
      with -1, and then the protocol is DEAD if and only if no resync is answered; so it is, at once,
      if the line is lost. */
  lemma NegotiationEnds(p: Proto, dad: byte, size: nat, sdata: seq<byte>, blocks: seq<Block>, last: Block,
                        more: seq<Raw>)
    requires |sdata| >= BUFFER_SIZE && p.ifsc > 0 && p.retries > 0 && size < 256
    requires forall b | b in blocks + [last] :: Passes(LineOf(p), b.payload)
    requires (forall b | b in blocks :: !IsIfsResponse(b)) && IsIfsResponse(last)
    ensures var decisive := Delivery(Frame(p.check, last.nad, last.pcb, last.payload));
      var answers := Deliveries(p.check, blocks) + ([decisive] + more);
      var e := Apply(p, Operation.NegotiateIfsd(dad, size, sdata), answers);
      var requests := Repeated(Frame(p.check, dad, 0xC1, [size]), |blocks| + 1);
      if last.payload == [size] then
        e.rc == 4 + p.check.rcBytes && e.p == p.(wtx := 0) && e.sent == requests && e.rest == more
      else
        && e.rc == -1
        && e.p == p.(state := if AnsweredAmong(LineOf(p), more, 3) then p.state else Dead, ns := 0, nr := 0, wtx := 0)
        && requests <= e.sent && 1 <= |e.sent| - |requests| <= 3
  {
    hide Frame, Negotiate, AnsweredAmong, AnsweredAt, Passes;
    var line := LineOf(p);
    var request := Build(p.check, p.ns, p.nr, p.ifsc, dad, S_BLOCK + S_IFS, [size]);
    RequestBuilt(p, dad, size);
    hide Build;
    var final := [Delivery(Frame(p.check, last.nad, last.pcb, last.payload))];
    assert last in blocks + [last] && forall b | b in blocks :: b in blocks + [last];
    var next := NegotiateSkips(line, p.retries, size, request, sdata, blocks, final + more);
    var after := NegotiateFirst(line, p.retries, size, request, next, last, more);
    ResyncExactly(p, dad, more);
  }

  lemma RequestBuilt(p: Proto, dad: byte, size: byte)
    requires p.ifsc > 0
    ensures Build(p.check, p.ns, p.nr, p.ifsc, dad, S_BLOCK + S_IFS, [size]) == Frame(p.check, dad, 0xC1, [size])
  {
    hide Frame;
    var data: seq<byte> := [size];
    assert data[..1] == data;
  }

  /** The line is lost: after blocks that are no answer nothing comes any more. */
  lemma NegotiationCutOff(p: Proto, dad: byte, size: nat, sdata: seq<byte>, blocks: seq<Block>)
    requires |sdata| >= BUFFER_SIZE && p.ifsc > 0 && p.retries > 0 && size < 256
    requires forall b | b in blocks :: Passes(LineOf(p), b.payload) && !IsIfsResponse(b)
    ensures var e := Apply(p, Operation.NegotiateIfsd(dad, size, sdata), Deliveries(p.check, blocks));
      e.rc == -1 && e.p == p.(state := Dead, ns := 0, nr := 0, wtx := 0)
  {
    hide Frame, Negotiate, AnsweredAmong, AnsweredAt, Passes;
    var line := LineOf(p);
    var request := Build(p.check, p.ns, p.nr, p.ifsc, dad, S_BLOCK + S_IFS, [size]);
    RequestBuilt(p, dad, size);
    assert Deliveries(p.check, blocks) + [] == Deliveries(p.check, blocks);
    var next := NegotiateSkips(line, p.retries, size, request, sdata, blocks, []);
    NegotiateUnfolds(line, p.retries, size, request, next, []);
    ResyncExactly(p.(state := Dead), dad, []);
  }

  // ---- parameters ----

  lemma {:induction false} RunKeepsSent(cfg: Config, s: Session, answers: seq<Raw>)
    requires |s.buf| >= BUFFER_SIZE
    ensures BlocksSent(s.log) <= BlocksSent(Run(cfg, s, answers).s.log)
    decreases |answers|
  {
    hide Step, BlocksSent;
    RunUnfolds(cfg, s, answers);
    StepSends(cfg, s, NextOf(answers));
    var next := Step(cfg, s, NextOf(answers));
    if answers != [] && next.Go? {
      RunKeepsSent(cfg, next.s, answers[1..]);
    }
  }

  /** The first block of a command: as many bytes as the card's information field size, and the more
      bit if that is not all. */
  lemma FirstBlock(p: Proto, dad: byte, cmd: seq<byte>, room: nat, sdata: seq<byte>, answers: seq<Raw>)
    requires |sdata| >= BUFFER_SIZE && p.state != Dead && cmd != []
    ensures var f := Apply(p, Operation.Transceive(dad, cmd, room, sdata), answers);
      && f.sent != []
      && f.sent[0] == Frame(p.check, dad, 64 * p.ns + (if |cmd| > p.ifsc then 32 else 0), cmd[..Min(|cmd|, p.ifsc)])
  {
    hide Frame, Run, Unused;
    var cfg := Config(LineOf(p), dad, p.retries, room);
    var s := Start(cfg, p.ns, p.nr, p.ifsc, p.wtx, sdata, cmd);
    BuiltBlocks(cfg, Session(Sending, p.ns, p.nr, p.ifsc, p.wtx, cfg.tries, RESYNCS, 0, 0, cmd, [], sdata, [], []));
    assert s.log == [Sent(s.out)] && s.log[..0] == [];
    assert BlocksSent(s.log) == [s.out];
    RunKeepsSent(cfg, s, answers);
  }

  /** An empty command is refused; otherwise what is returned is the length of what was received. */
  lemma WhatIsReturned(p: Proto, dad: byte, cmd: seq<byte>, room: nat, sdata: seq<byte>, answers: seq<Raw>)
    requires |sdata| >= BUFFER_SIZE
    ensures var e := Apply(p, Operation.Transceive(dad, cmd, room, sdata), answers);
      if cmd == [] || p.state == Dead then e == Effect(p, [], -1, [], answers)
      else if e.p.state == Dead then e.rc == -1
      else e.rc == |e.rcv| <= room
  {
    hide Run, Start, Unused, BlocksSent;
    if cmd != [] && p.state != Dead {
      FailsIntoDead(p, dad, cmd, room, sdata, answers);
      AnyCard(Config(LineOf(p), dad, p.retries, room), Opening(p.ns, p.nr, p.ifsc), p.wtx, sdata, cmd, answers);
    }
  }

  /** Over a conforming card the call returns exactly its answer, if there is room, and leaves the protocol
      alive and in step. */
  lemma TransceiveReturns(p: Proto, app: App, dad: byte, cmd: seq<byte>, room: nat, sdata: seq<byte>, c: Card,
                          noise: seq<Fate>)
    returns (answers: seq<Raw>)
    requires Conforming(LineOf(p), app) && 1 <= p.retries < 0x1_0000_0000 && p.state != Dead && cmd != []
    requires InSync(p.ns, p.nr, p.ifsc, c) && |sdata| >= BUFFER_SIZE
    requires Tolerable(LineOf(p), noise, p.retries, p.retries)
    requires |cmd| <= p.ifsc || Early(noise, LeadingRequests(c.plan))
    ensures var e := Apply(p, Operation.Transceive(dad, cmd, room, sdata), answers);
      var answer := Concat(app(c.done + [cmd]));
      if |answer| <= room then e.rc == |answer| && e.rcv == answer && e.p.state != Dead
      else e.rc == -1 && e.p.state == Dead
  {
    hide Run, Start, Unused, BlocksSent, InSync, Tolerable, Early, LeadingRequests, FitsFrame, CardStep;
    var cfg := Config(LineOf(p), dad, p.retries, room);
    var x := Exchange(cfg, app, c.done, cmd);
    var host := Host(p.ns, p.nr, p.ifsc, p.wtx);
    var n := TransceiveIsACall(x, host, sdata, c, noise);
    StartUnheard(cfg, Opening(p.ns, p.nr, p.ifsc), p.wtx, sdata, cmd);
    var s := Start(cfg, p.ns, p.nr, p.ifsc, p.wtx, sdata, cmd);
    answers := Answers(cfg, app, s, CardStep(cfg.line.check, app, c, s.out), noise, n);
    FailsIntoDead(p, dad, cmd, room, sdata, answers);
    AnyCard(cfg, Opening(p.ns, p.nr, p.ifsc), p.wtx, sdata, cmd, answers);
  }

  /** What parameters change, seen on the line: the information field size of the card is the length of
      the first block of a longer command; that of the device and the way of reading decide which
      blocks come through; the checksum is that of both sides. */
  lemma ParamsTake(p: Proto, n: nat, dad: byte, cmd: seq<byte>, room: nat, sdata: seq<byte>, answers: seq<Raw>,
                   payload: seq<byte>)
    requires |sdata| >= BUFFER_SIZE && p.state != Dead && |cmd| > n > 0
    ensures var e := Apply(p, Operation.SetParam(Ifsc, n), answers);
      var f := Apply(e.p, Operation.Transceive(dad, cmd, room, sdata), e.rest);
      e.rest == answers && f.sent != [] && f.sent[0] == Frame(p.check, dad, 64 * p.ns + 32, cmd[..n])
    ensures var q := WithParam(WithParam(p, BlockOriented, 1), Ifsd, n);
      Passes(LineOf(q), payload) <==> |payload| <= n + 1 && |payload| + p.check.rcBytes <= 256
    ensures Passes(LineOf(WithParam(p, BlockOriented, 0)), payload) <==> |payload| <= 253
    ensures Apply(p, Operation.SetParam(Unsupported, n), answers) == Effect(p, [], -1, [], answers)
    ensures WithParam(p, ChecksumLrc, n).check == CheckFor(Lrc) && WithParam(p, ChecksumCrc, n).check == CheckFor(Crc)
  {
    hide Frame, Run, Unused, BlocksSent;
    FirstBlock(WithParam(p, Ifsc, n), dad, cmd, room, sdata, answers);
  }
}
