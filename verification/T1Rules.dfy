/** What the host sends for each block it hears, by control byte: the rules of ISO/IEC 7816-3:2006,
    sections 11.6.2 and 11.6.3, as the loop of `t1_transceive` keeps them from any state. */
module T1Rules {
  import opened Bytes
  import opened T1Block
  import opened T1Session

  /** The session after a turn in which it heard a block: what it sends next, and what changed. */
  ghost predicate Sends(cfg: Config, r: Next, t: Session, pcb: byte, payload: seq<byte>) {
    && r.Go? && r.s.out == Frame(cfg.line.check, cfg.dad, pcb, payload)
    && r.s == t.(buf := r.s.buf, out := r.s.out, log := r.s.log)
  }

  /** A resync is asked for, 0xC0, with both numbers at 0; without budget the call fails. */
  ghost predicate GivesUp(cfg: Config, r: Next, t: Session) {
    if t.resyncs == 0 then r.Failed? && r.s.phase == Dead
    else Sends(cfg, r, t.(resyncs := t.resyncs - 1, ns := 0, nr := 0, phase := Resynch), 0xC0, [])
  }

  /** The next bytes of the command are sent, as many as fit, in an I-block with the host's number. */
  ghost predicate SendsOn(cfg: Config, r: Next, t: Session) {
    var n := Min(|t.left|, t.ifsc);
    Sends(cfg, r, t.(lastSend := n), 64 * t.ns + (if |t.left| > t.ifsc then 32 else 0), t.left[..n])
  }

  /** Every turn costs a try, and the waiting time extension holds for one. */
  function Turned(s: Session): Session {
    s.(retries := Decrement(s.retries), wtx := 0)
  }

  function Turn(cfg: Config, s: Session, nad: byte, pcb: byte, payload: seq<byte>): Next
    requires |s.buf| >= BUFFER_SIZE
  {
    Step(cfg, s, Delivery(Frame(cfg.line.check, nad, pcb, payload)))
  }

  // ---- control bytes by number ----

  /** An I-block's control byte: its number, whether more comes, and bits without meaning. */
  function IByte(n: bit, more: bool, u: nat): byte
    requires u < 32
  {
    64 * n + (if more then 32 else 0) + u
  }

  /** An R-block's: the number it asks for, and an error. */
  function RByte(n: bit, e: nat, u: bit): byte
    requires e < 16
  {
    0x80 + 32 * u + 16 * n + e
  }

  /** An S-block's: whether it is a response, and its type. */
  function SByte(response: bool, t: nat, u: bit): byte
    requires t < 16
  {
    0xC0 + (if response then 32 else 0) + 16 * u + t
  }

  lemma ControlBytes(n: bit, flag: bool, t: nat, u: bit, w: nat)
    requires t < 16 && w < 32
    ensures var i := IByte(n, flag, w); TypeOf(i) == IBlock && SeqOf(i) == n && (HasMore(i) <==> flag)
    ensures var r := RByte(n, t, u); TypeOf(r) == RBlock && SeqOf(r) == n && LowNibble(r) == t
    ensures var s := SByte(flag, t, u); TypeOf(s) == SBlock && (IsResponse(s) <==> flag) && LowNibble(s) == t
  {
    hide TypeOf, SeqOf, LowNibble, HasMore, IsResponse, IByte, RByte, SByte;
    IBytes(n, flag, w);
    RBytes(n, t, u);
    SBytes(flag, t, u);
  }

  lemma IBytes(n: bit, flag: bool, w: nat)
    requires w < 32
    ensures var i := IByte(n, flag, w); TypeOf(i) == IBlock && SeqOf(i) == n && (HasMore(i) <==> flag)
  {
    var k := 2 * n + if flag then 1 else 0;
    assert IByte(n, flag, w) == 32 * k + w;
    assert (32 * k + w) / 32 == k && (32 * k + w) / 64 == k / 2;
  }

  lemma RBytes(n: bit, t: nat, u: bit)
    requires t < 16
    ensures var r := RByte(n, t, u); TypeOf(r) == RBlock && SeqOf(r) == n && LowNibble(r) == t
  {
    var k := 8 + 2 * u + n;
    assert RByte(n, t, u) == 16 * k + t;
    assert (16 * k + t) / 16 == k && (16 * k + t) / 64 == k / 4 && (16 * k + t) % 16 == t;
  }

  lemma SBytes(flag: bool, t: nat, u: bit)
    requires t < 16
    ensures var s := SByte(flag, t, u); TypeOf(s) == SBlock && (IsResponse(s) <==> flag) && LowNibble(s) == t
  {
    var k := 12 + (if flag then 2 else 0) + u;
    assert SByte(flag, t, u) == 16 * k + t;
    assert (16 * k + t) / 32 == k / 2 && (16 * k + t) / 64 == k / 4 && (16 * k + t) % 16 == t;
  }

  // ---- what is built ----

  lemma BuiltBlocks(cfg: Config, s: Session)
    ensures SendI(cfg, s).out ==
      Frame(cfg.line.check, cfg.dad, 64 * s.ns + (if |s.left| > s.ifsc then 32 else 0), s.left[..Min(|s.left|, s.ifsc)])
    ensures forall e: byte | e < 16 :: SendR(cfg, s, e).out == Frame(cfg.line.check, cfg.dad, RByte(s.nr, e, 0), [])
  {
    hide Frame;
    NumberedI(|s.left| > s.ifsc, s.ns, s.nr);
    var none: seq<byte> := [];
    assert none[..0] == none;
    forall e: byte | e < 16
      ensures SendR(cfg, s, e).out == Frame(cfg.line.check, cfg.dad, RByte(s.nr, e, 0), [])
    {
      NumberedR(e, s.ns, s.nr);
    }
  }

  /** A response to a request of the card. */
  lemma BuiltResponse(cfg: Config, s: Session, t: nat, u: bit, data: seq<byte>)
    requires t < 16 && |data| <= 1
    ensures Respond(cfg, s, SByte(false, t, u), data).s.out ==
      Frame(cfg.line.check, cfg.dad, 0xE0 + t, data[..Min(|data|, s.ifsc)])
  {
    hide Frame;
    ControlBytes(0, false, t, u, 0);
    ControlBytes(0, true, t, 0, 0);
    assert SetBit(0xE0 + t, 32) == 0xE0 + t by {
      assert (0xE0 + t) / 32 == 7;
    }
  }

  lemma GivenUp(cfg: Config, t: Session)
    ensures GivesUp(cfg, Resync(cfg, t), t)
  {
    hide Frame;
    var none: seq<byte> := [];
    assert none[..0] == none;
  }

  lemma AckDrops(s: Session)
    ensures Ack(s) == Dropped(s).(log := Ack(s).log)
    ensures Dropped(s) == s.(left := Dropped(s).left, lastSend := 0)
  {
    assert s.left[0..] == s.left;
  }

  /** What changes does not depend on the buffer and the record. */
  lemma DropsAlike(t: Session, v: Session)
    requires v == t.(buf := v.buf, out := v.out, log := v.log)
    ensures Dropped(v) == Dropped(t).(buf := v.buf, out := v.out, log := v.log)
    ensures Answered(v) == Answered(t).(buf := v.buf, out := v.out, log := v.log)
  {
  }

  lemma SameButRecord(cfg: Config, r: Next, t: Session, v: Session)
    requires v == t.(buf := v.buf, out := v.out, log := v.log)
    ensures GivesUp(cfg, r, t) == GivesUp(cfg, r, v) && SendsOn(cfg, r, t) == SendsOn(cfg, r, v)
    ensures forall pcb, payload :: Sends(cfg, r, t, pcb, payload) == Sends(cfg, r, v, pcb, payload)
  {
    hide Frame;
  }

  /** What a turn comes to when the frame arrives: its handler acts on it. */
  lemma TurnIs(cfg: Config, s: Session, nad: byte, pcb: byte, payload: seq<byte>)
    requires |s.buf| >= BUFFER_SIZE && Passes(cfg.line, payload)
    ensures var f := Frame(cfg.line.check, nad, pcb, payload);
      var u := Heed(Loaded(s, f), f);
      && |u.buf| >= BUFFER_SIZE && u.buf[DATA..DATA + u.buf[LEN]] == payload
      && (payload != [] ==> u.buf[DATA] == payload[0])
      && u == Turned(s).(buf := u.buf, log := u.log)
      && Turn(cfg, s, nad, pcb, payload) ==
         match TypeOf(pcb)
         case RBlock => OnR(cfg, u, pcb)
         case IBlock => OnI(cfg, u, pcb)
         case SBlock => OnS(cfg, u, pcb)
  {
    hide Frame, Step, OnR, OnI, OnS;
    StepOnFrame(cfg, s, nad, pcb, payload);
    var f := Frame(cfg.line.check, nad, pcb, payload);
    var u := Heed(Loaded(s, f), f);
    assert payload != [] ==> u.buf[DATA..DATA + u.buf[LEN]][0] == u.buf[DATA];
  }

  // ---- R-blocks ----

  /** One that reports an error leads to a resync. */
  lemma ErrorReported(cfg: Config, s: Session, nad: byte, n: bit, e: nat, u: bit, payload: seq<byte>)
    requires |s.buf| >= BUFFER_SIZE && Passes(cfg.line, payload) && 0 < e < 16
    ensures GivesUp(cfg, Turn(cfg, s, nad, RByte(n, e, u), payload), Turned(s))
  {
    hide Frame, Step, TypeOf, SeqOf, LowNibble, Resync;
    TurnIs(cfg, s, nad, RByte(n, e, u), payload);
    ControlBytes(n, false, e, u, 0);
    var f := Frame(cfg.line.check, nad, RByte(n, e, u), payload);
    GivenUp(cfg, Heed(Loaded(s, f), f));
  }

  /** One without error, while the card answers: it is asked for the block the host expects. */
  lemma AskedWhileReceiving(cfg: Config, s: Session, nad: byte, n: bit, u: bit, payload: seq<byte>)
    requires |s.buf| >= BUFFER_SIZE && Passes(cfg.line, payload) && s.phase == Receiving
    ensures var r := Turn(cfg, s, nad, RByte(n, 0, u), payload);
      Sends(cfg, r, Turned(s).(retries := cfg.tries), RByte(s.nr, 0, 0), [])
  {
    hide Frame, Step, TypeOf, SeqOf, LowNibble, Build;
    TurnIs(cfg, s, nad, RByte(n, 0, u), payload);
    ControlBytes(n, false, 0, u, 0);
    var f := Frame(cfg.line.check, nad, RByte(n, 0, u), payload);
    BuiltBlocks(cfg, Heed(Loaded(s, f), f));
  }

  /** The bytes under way are gone, if there are any. */
  function Dropped(t: Session): Session {
    if t.lastSend <= |t.left| then t.(left := t.left[t.lastSend..], lastSend := 0) else t.(lastSend := 0)
  }

  /** One without error, while the host sends or waits: another number than the host's takes the bytes
      under way for acknowledged; then the host sends on, or asks for a resync if nothing is left. */
  lemma AskedWhileSending(cfg: Config, s: Session, nad: byte, n: bit, u: bit, payload: seq<byte>)
    requires |s.buf| >= BUFFER_SIZE && Passes(cfg.line, payload) && s.phase in {Sending, Resynch}
    ensures var t := if n == s.ns then Turned(s)
                     else Dropped(Turned(s)).(ns := 1 - s.ns, sentLength := s.sentLength + s.lastSend);
      var r := Turn(cfg, s, nad, RByte(n, 0, u), payload);
      if t.left == [] then GivesUp(cfg, r, t) else SendsOn(cfg, r, t.(retries := cfg.tries))
  {
    hide Frame, Step, TypeOf, SeqOf, LowNibble, Build, Resync, Ack, Dropped, OnR, SendsOn, GivesUp;
    TurnIs(cfg, s, nad, RByte(n, 0, u), payload);
    ControlBytes(n, false, 0, u, 0);
    var f := Frame(cfg.line.check, nad, RByte(n, 0, u), payload);
    var v := Heed(Loaded(s, f), f);
    DropsAlike(Turned(s), v);
    OnRSending(cfg, v, RByte(n, 0, u));
    var w := if n == s.ns then v else Dropped(v).(ns := 1 - s.ns, sentLength := s.sentLength + s.lastSend);
    var t := if n == s.ns then Turned(s)
             else Dropped(Turned(s)).(ns := 1 - s.ns, sentLength := s.sentLength + s.lastSend);
    SameButRecord(cfg, Turn(cfg, s, nad, RByte(n, 0, u), payload), t, w);
    SameButRecord(cfg, Turn(cfg, s, nad, RByte(n, 0, u), payload), t.(retries := cfg.tries), w.(retries := cfg.tries));
  }

  lemma OnRSending(cfg: Config, v: Session, pcb: byte)
    requires LowNibble(pcb) == 0 && v.phase in {Sending, Resynch}
    ensures var w :=
        if SeqOf(pcb) == v.ns then v else Dropped(v).(ns := 1 - v.ns, sentLength := v.sentLength + v.lastSend);
      if w.left == [] then GivesUp(cfg, OnR(cfg, v, pcb), w)
      else SendsOn(cfg, OnR(cfg, v, pcb), w.(retries := cfg.tries))
  {
    hide Frame, SeqOf, LowNibble, Build, Resync, Dropped;
    AckDrops(v);
    var w := if SeqOf(pcb) == v.ns then v else Ack(v).(ns := 1 - v.ns, sentLength := v.sentLength + v.lastSend);
    GivenUp(cfg, w);
    BuiltBlocks(cfg, w);
  }

  // ---- I-blocks ----

  /** What hearing an I-block does at first: while the host sends it is the acknowledgement. */
  function Answered(t: Session): Session {
    (if t.phase == Sending then Dropped(t).(ns := 1 - t.ns) else t).(phase := Receiving)
  }

  /** One with another number than expected: nothing is stored, and it is refused with error 2. */
  lemma WrongNumber(cfg: Config, s: Session, nad: byte, more: bool, u: nat, payload: seq<byte>)
    requires |s.buf| >= BUFFER_SIZE && Passes(cfg.line, payload) && u < 32
    ensures Sends(cfg, Turn(cfg, s, nad, IByte(1 - s.nr, more, u), payload), Answered(Turned(s)), RByte(s.nr, 2, 0), [])
  {
    hide Frame, Step, TypeOf, SeqOf, HasMore, Build, Accept, Sends, OnI, Answered;
    var pcb := IByte(1 - s.nr, more, u);
    TurnIs(cfg, s, nad, pcb, payload);
    ControlBytes(1 - s.nr, more, 0, 0, u);
    var f := Frame(cfg.line.check, nad, pcb, payload);
    var v := Heed(Loaded(s, f), f);
    DropsAlike(Turned(s), v);
    OnIWrong(cfg, v, pcb);
    SameButRecord(cfg, Turn(cfg, s, nad, pcb, payload), Answered(Turned(s)), Answered(v));
  }

  lemma OnIWrong(cfg: Config, v: Session, pcb: byte)
    requires |v.buf| >= BUFFER_SIZE && SeqOf(pcb) != v.nr
    ensures Sends(cfg, OnI(cfg, v, pcb), Answered(v), RByte(v.nr, 2, 0), []) && Answered(v).nr == v.nr
  {
    hide Frame, SeqOf, HasMore, Build, Accept, Ack, Dropped;
    AckDrops(v);
    BuiltBlocks(cfg, (if v.phase == Sending then Ack(v).(ns := Flip(v.ns)) else v).(phase := Receiving));
  }

  /** One with the number expected: it is stored if there is room, and the next one asked for if more
      comes. */
  lemma RightNumber(cfg: Config, s: Session, nad: byte, more: bool, u: nat, payload: seq<byte>)
    requires |s.buf| >= BUFFER_SIZE && Passes(cfg.line, payload) && u < 32
    ensures Stores(cfg, Turn(cfg, s, nad, IByte(s.nr, more, u), payload), more, Turned(s), payload)
  {
    hide Frame, Step, TypeOf, SeqOf, HasMore, Build, Stores, OnI, Answered;
    var pcb := IByte(s.nr, more, u);
    TurnIs(cfg, s, nad, pcb, payload);
    ControlBytes(s.nr, more, 0, 0, u);
    var f := Frame(cfg.line.check, nad, pcb, payload);
    var v := Heed(Loaded(s, f), f);
    DropsAlike(Turned(s), v);
    OnIRight(cfg, v, pcb, payload);
    StoredAlike(cfg, Turn(cfg, s, nad, pcb, payload), more, Turned(s), v, payload);
  }

  /** What becomes of a piece of the answer. */
  ghost predicate Stores(cfg: Config, r: Next, more: bool, s: Session, payload: seq<byte>) {
    var t := Answered(s).(nr := 1 - s.nr, rbuf := s.rbuf + payload);
    if |t.rbuf| > cfg.room then r.Failed? && r.s.phase == Dead
    else if more then Sends(cfg, r, t.(retries := cfg.tries), RByte(1 - s.nr, 0, 0), [])
    else r.Done? && r.s == t.(buf := r.s.buf, log := r.s.log)
  }

  lemma StoredAlike(cfg: Config, r: Next, more: bool, t: Session, v: Session, payload: seq<byte>)
    requires v == t.(buf := v.buf, out := v.out, log := v.log) && v.out == t.out
    ensures Stores(cfg, r, more, t, payload) == Stores(cfg, r, more, v, payload)
  {
    hide Frame, Dropped;
    DropsAlike(t, v);
    AckDrops(t);
    AckDrops(v);
  }

  lemma OnIRight(cfg: Config, v: Session, pcb: byte, payload: seq<byte>)
    requires |v.buf| >= BUFFER_SIZE && SeqOf(pcb) == v.nr && v.buf[DATA..DATA + v.buf[LEN]] == payload
    ensures Stores(cfg, OnI(cfg, v, pcb), HasMore(pcb), v, payload)
  {
    hide Frame, SeqOf, HasMore, Build, Ack, Dropped;
    AckDrops(v);
    var w := (if v.phase == Sending then Ack(v).(ns := Flip(v.ns)) else v).(phase := Receiving);
    BuiltBlocks(cfg, w.(nr := 1 - w.nr, rbuf := w.rbuf + payload, log := w.log + [Stored]));
  }

  // ---- S-blocks ----

  /** A request with a value, 1 for the information field size and 3 for waiting time, is granted and
      answered in kind; so is one to abort, 2. A size of 0 and all other requests lead to a resync. */
  lemma RequestAnswered(cfg: Config, s: Session, nad: byte, t: nat, u: bit, payload: seq<byte>)
    requires |s.buf| >= BUFFER_SIZE && Passes(cfg.line, payload) && t < 16 && (t in {1, 3} ==> payload != [])
    ensures var r := Turn(cfg, s, nad, SByte(false, t, u), payload);
      var v := Turned(s).(retries := cfg.tries);
      if t == 1 && payload[0] != 0 then Sends(cfg, r, v.(ifsc := payload[0]), 0xE1, [payload[0]])
      else if t == 2 then Sends(cfg, r, v, 0xE2, [])
      else if t == 3 then Sends(cfg, r, v.(wtx := payload[0]), 0xE3, if s.ifsc == 0 then [] else [payload[0]])
      else GivesUp(cfg, r, Turned(s))
  {
    hide Frame, Step, TypeOf, LowNibble, IsResponse, Build, Resync, SByte;
    var pcb := SByte(false, t, u);
    TurnIs(cfg, s, nad, pcb, payload);
    ControlBytes(0, false, t, u, 0);
    var f := Frame(cfg.line.check, nad, pcb, payload);
    var v := Heed(Loaded(s, f), f);
    var data: seq<byte> := [v.buf[DATA]];
    assert data[..1] == data && data[..0] == [];
    var none: seq<byte> := [];
    assert none[..0] == none;
    GivenUp(cfg, v);
    BuiltResponse(cfg, v, t, u, none);
    BuiltResponse(cfg, v.(wtx := v.buf[DATA]), t, u, data);
    BuiltResponse(cfg, v.(ifsc := v.buf[DATA]), t, u, data);
  }

  /** A response ends a resync: the host sends on from what is left, with nothing received, and with
      all tries and three resyncs again. No other response is expected. */
  lemma ResponseTaken(cfg: Config, s: Session, nad: byte, t: nat, u: bit, payload: seq<byte>)
    requires |s.buf| >= BUFFER_SIZE && Passes(cfg.line, payload) && t < 16
    ensures var r := Turn(cfg, s, nad, SByte(true, t, u), payload);
      if s.phase == Resynch
      then SendsOn(cfg, r, Fresh(cfg, Turned(s)))
      else GivesUp(cfg, r, Turned(s))
  {
    hide Frame, Step, TypeOf, IsResponse, Build, Resync, SByte, OnS, SendsOn, GivesUp;
    var pcb := SByte(true, t, u);
    TurnIs(cfg, s, nad, pcb, payload);
    ControlBytes(0, true, t, u, 0);
    var f := Frame(cfg.line.check, nad, pcb, payload);
    var v := Heed(Loaded(s, f), f);
    OnSResponse(cfg, v, pcb);
    var r := Turn(cfg, s, nad, pcb, payload);
    SameButRecord(cfg, r, Turned(s), v);
    SameButRecord(cfg, r, Fresh(cfg, Turned(s)), Fresh(cfg, v));
  }

  /** A session that begins again. */
  function Fresh(cfg: Config, t: Session): Session {
    t.(phase := Sending, sentLength := 0, resyncs := 3, retries := cfg.tries, rbuf := [])
  }

  lemma OnSResponse(cfg: Config, v: Session, pcb: byte)
    requires |v.buf| >= BUFFER_SIZE && IsResponse(pcb)
    ensures if v.phase == Resynch then SendsOn(cfg, OnS(cfg, v, pcb), Fresh(cfg, v))
      else GivesUp(cfg, OnS(cfg, v, pcb), v)
  {
    hide Frame, IsResponse, Build, Resync;
    GivenUp(cfg, v);
    BuiltBlocks(cfg, Restarted(cfg, v));
  }

  // ---- what cannot be read ----

  /** A delivery that fails the check: the block is asked for again with error 1 unless the tries are used
      up or part of a chain was acknowledged; then a resync is asked for. The count of tries is of 32 bits
      and wraps. */
  lemma NotReadable(cfg: Config, s: Session, data: seq<byte>)
    requires |s.buf| >= BUFFER_SIZE
    requires var r := Receive(cfg.line, Delivery(data), s.buf); r.Got? && !Verify(cfg.line.check, r.buf, r.n)
    ensures var r := Step(cfg, s, Delivery(data));
      var left := if s.retries == 0 then 4294967295 else (s.retries - 1) % 4294967296;
      var t := s.(retries := left, wtx := 0);
      if left == 0 || s.sentLength != 0 then GivesUp(cfg, r, t) else Sends(cfg, r, t, RByte(s.nr, 1, 0), [])
  {
    hide Frame, Verify, Receive, Build, Resync;
    var r := Receive(cfg.line, Delivery(data), s.buf);
    var u := Turned(s).(buf := r.buf);
    GivenUp(cfg, u);
    BuiltBlocks(cfg, u);
  }

  /** A line that fails, or delivers less than a block, ends the call. */
  lemma LineLost(cfg: Config, s: Session, raw: Raw)
    requires |s.buf| >= BUFFER_SIZE && Receive(cfg.line, raw, s.buf).Lost?
    ensures var r := Step(cfg, s, raw); r.Failed? && r.s.phase == Dead
  {
    hide Receive;
  }

  // ---- the budget of a call ----

  /** `n` error blocks in a row. */
  function Errors(cfg: Config, nad: byte, n: nat): seq<Raw> {
    if n == 0 then [] else [Delivery(Frame(cfg.line.check, nad, 0x81, []))] + Errors(cfg, nad, n - 1)
  }

  /** Each costs a resync. */
  lemma {:induction false} ErrorsSpend(cfg: Config, s: Session, nad: byte, n: nat, more: seq<Raw>) returns (t: Session)
    requires |s.buf| >= BUFFER_SIZE && n <= s.resyncs && Passes(cfg.line, [])
    ensures |t.buf| >= BUFFER_SIZE && t.resyncs == s.resyncs - n
    ensures (n > 0 ==> t.phase == Resynch) && (n == 0 ==> t == s)
    ensures Run(cfg, s, Errors(cfg, nad, n) + more) == Run(cfg, t, more)
    decreases n
  {
    hide Frame, Step;
    t := s;
    if n > 0 {
      ErrorReported(cfg, s, nad, 0, 1, 0, []);
      var first := Delivery(Frame(cfg.line.check, nad, 0x81, []));
      assert first == (Errors(cfg, nad, n) + more)[0];
      assert (Errors(cfg, nad, n) + more)[1..] == Errors(cfg, nad, n - 1) + more;
      t := ErrorsSpend(cfg, Step(cfg, s, first).s, nad, n - 1, more);
    } else {
      assert Errors(cfg, nad, 0) + more == more;
    }
  }

  /** A call survives three of them, however late an answer to the resync comes, and not a fourth. */
  lemma ThreeResyncs(cfg: Config, ns: bit, nr: bit, ifsc: nat, wtx: nat, buf: seq<byte>, cmd: seq<byte>, nad: byte,
                     more: seq<Raw>)
    requires |buf| >= BUFFER_SIZE && Passes(cfg.line, [])
    ensures var s := Start(cfg, ns, nr, ifsc, wtx, buf, cmd);
      && |s.buf| >= BUFFER_SIZE && Run(cfg, s, Errors(cfg, nad, 4) + more).Failed?
      && var answer := [Delivery(Frame(cfg.line.check, nad, 0xE0, []))];
         exists t: Session :: |t.buf| >= BUFFER_SIZE && t.phase == Sending && t.resyncs == 3 &&
           Run(cfg, s, Errors(cfg, nad, 3) + (answer + more)) == Run(cfg, t, more)
  {
    hide Frame, Step, Build, Errors;
    var s := Start(cfg, ns, nr, ifsc, wtx, buf, cmd);
    var answer := [Delivery(Frame(cfg.line.check, nad, 0xE0, []))];
    var t := ErrorsSpend(cfg, s, nad, 3, answer + more);
    ResponseTaken(cfg, t, nad, 0, 0, []);
    assert (answer + more)[0] == answer[0] && (answer + more)[1..] == more;
    var again := Step(cfg, t, answer[0]).s;
    assert again.phase == Sending && again.resyncs == 3;
    OneMoreError(cfg, nad, 3, more);
    var error := [Delivery(Frame(cfg.line.check, nad, 0x81, []))];
    var v := ErrorsSpend(cfg, s, nad, 3, error + more);
    ErrorReported(cfg, v, nad, 0, 1, 0, []);
    assert (error + more)[0] == error[0];
  }

  lemma {:induction false} OneMoreError(cfg: Config, nad: byte, n: nat, more: seq<Raw>)
    ensures Errors(cfg, nad, n + 1) + more ==
      Errors(cfg, nad, n) + ([Delivery(Frame(cfg.line.check, nad, 0x81, []))] + more)
  {
    hide Frame;
    if n > 0 {
      OneMoreError(cfg, nad, n - 1, more);
      var error := [Delivery(Frame(cfg.line.check, nad, 0x81, []))];
      assert error + Errors(cfg, nad, n) + more == error + (Errors(cfg, nad, n) + more);
      assert error + (Errors(cfg, nad, n - 1) + (error + more)) == error + Errors(cfg, nad, n - 1) + (error + more);
    }
  }
}
