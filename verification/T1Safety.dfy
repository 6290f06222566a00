/** What every run of `t1_transceive` keeps, whatever the card sends. */
module T1Safety {
  import opened Bytes
  import opened T1Block
  import opened T1Session
  import opened T1Heard

  /** The protocol object's part of the state when the call begins. */
  datatype Opening = Opening(ns: bit, nr: bit, ifsc: nat)

  // ---- what the record of a run says ----

  ghost predicate IsIBlock(check: Check, b: seq<byte>) {
    |b| >= 3 + check.rcBytes && TypeOf(b[PCB]) == IBlock
  }

  ghost predicate IsResyncRequest(b: seq<byte>) {
    |b| > PCB && b[PCB] == S_BLOCK + S_RESYNC
  }

  ghost function Payload(check: Check, b: seq<byte>): seq<byte>
    requires IsIBlock(check, b)
  {
    b[3..|b| - check.rcBytes]
  }

  /** The payload of the last I-block sent. */
  ghost function LastI(check: Check, log: seq<Event>): seq<byte> {
    if log == [] then []
    else
      var e := log[|log| - 1];
      if e.Sent? && IsIBlock(check, e.block) then Payload(check, e.block)
      else LastI(check, log[..|log| - 1])
  }

  /** Whether the last I-block sent says that more is to come; before the first, whether there is
      anything to send. */
  ghost function LastMore(check: Check, cmd: seq<byte>, log: seq<Event>): bool {
    if log == [] then cmd != []
    else
      var e := log[|log| - 1];
      if e.Sent? && IsIBlock(check, e.block) then HasMore(e.block[PCB])
      else LastMore(check, cmd, log[..|log| - 1])
  }

  /** The last I-block sent was empty, or was acknowledged. */
  ghost function Settled(check: Check, log: seq<Event>): bool {
    if log == [] then true
    else
      var e := log[|log| - 1];
      if e.Acked? then true
      else if e.Sent? && IsIBlock(check, e.block) then Payload(check, e.block) == []
      else Settled(check, log[..|log| - 1])
  }

  /** N(S) of the last I-block sent; 0 once a resync request was sent after it. */
  ghost function SendNumber(check: Check, ns: bit, log: seq<Event>): bit {
    if log == [] then ns
    else
      var e := log[|log| - 1];
      if e.Sent? && IsIBlock(check, e.block) then SeqOf(e.block[PCB])
      else if e.Sent? && IsResyncRequest(e.block) then 0
      else SendNumber(check, ns, log[..|log| - 1])
  }

  datatype Told = Untold | Told(pcb: byte, first: byte, payload: seq<byte>, raw: seq<byte>)

  /** The last block heard. */
  ghost function LastHeard(log: seq<Event>): Told {
    if log == [] then Untold
    else
      var e := log[|log| - 1];
      if e.Heard? then Told(e.pcb, e.first, e.payload, e.raw) else LastHeard(log[..|log| - 1])
  }

  /** The I-blocks heard since the call, or the last resync, began. */
  ghost function IBlocksHeard(log: seq<Event>): nat {
    if log == [] then 0
    else
      var front := log[..|log| - 1];
      match log[|log| - 1]
      case Heard(pcb, _, _, _) => IBlocksHeard(front) + if TypeOf(pcb) == IBlock then 1 else 0
      case Resynced => 0
      case _ => IBlocksHeard(front)
  }

  /** The acknowledged payloads, in order. */
  ghost function AckedBytes(check: Check, log: seq<Event>): seq<byte> {
    if log == [] then []
    else
      var front := log[..|log| - 1];
      AckedBytes(check, front) + (if log[|log| - 1].Acked? then LastI(check, front) else [])
  }

  /** What makes the last block heard an acknowledgement: an R-block without error that does not ask
      for the number of the last I-block sent, or the first I-block of the card. */
  ghost predicate Acknowledges(check: Check, ns: bit, log: seq<Event>) {
    match LastHeard(log)
    case Untold => false
    case Told(pcb, _, _, _) =>
      match TypeOf(pcb)
      case RBlock => LowNibble(pcb) == 0 && SeqOf(pcb) != SendNumber(check, ns, log)
      case IBlock => IBlocksHeard(log) == 1
      case SBlock => false
  }

  /** Bytes leave the send buffer only when the card acknowledges them. */
  ghost predicate AcksAreEarned(check: Check, ns: bit, log: seq<Event>) {
    log == [] ||
    var front := log[..|log| - 1];
    AcksAreEarned(check, ns, front) && (log[|log| - 1].Acked? ==> Acknowledges(check, ns, front))
  }

  /** The information field size of the card in force: that of its last S(IFS request), control bytes
      0xC1 and 0xD1, with another size than 0. */
  ghost function IfscIn(ifsc: nat, log: seq<Event>): nat {
    if log == [] then ifsc
    else
      var e := log[|log| - 1];
      if e.Heard? && e.pcb in {0xC1, 0xD1} && e.first != 0 then e.first else IfscIn(ifsc, log[..|log| - 1])
  }

  /** The number after that of the last block stored; a resync request resets it. */
  ghost function ExpectedNumber(nr: bit, log: seq<Event>): bit {
    if log == [] then nr
    else
      var front := log[..|log| - 1];
      match log[|log| - 1]
      case Stored => (match LastHeard(front) case Untold => nr case Told(pcb, _, _, _) => Flip(SeqOf(pcb)))
      case Sent(b) => if IsResyncRequest(b) then 0 else ExpectedNumber(nr, front)
      case _ => ExpectedNumber(nr, front)
  }

  /** What is stored is an I-block that was heard, and between resync requests the numbers of the
      blocks stored alternate. */
  ghost predicate StoresAlternate(nr: bit, log: seq<Event>) {
    log == [] ||
    var front := log[..|log| - 1];
    && StoresAlternate(nr, front)
    && (log[|log| - 1].Stored? ==>
          match LastHeard(front)
          case Untold => false
          case Told(pcb, _, _, _) => TypeOf(pcb) == IBlock && SeqOf(pcb) == ExpectedNumber(nr, front))
  }

  /** The payloads stored since the last resync was answered. */
  ghost function StoredBytes(log: seq<Event>): seq<byte> {
    if log == [] then []
    else
      var front := log[..|log| - 1];
      match log[|log| - 1]
      case Stored => StoredBytes(front) + (match LastHeard(front) case Untold => [] case Told(_, _, p, _) => p)
      case Resynced => []
      case _ => StoredBytes(front)
  }

  ghost function ResyncRequests(log: seq<Event>): nat {
    if log == [] then 0
    else
      var e := log[|log| - 1];
      ResyncRequests(log[..|log| - 1]) + (if e.Sent? && IsResyncRequest(e.block) then 1 else 0)
  }

  ghost function ResyncAnswers(log: seq<Event>): nat {
    if log == [] then 0
    else ResyncAnswers(log[..|log| - 1]) + (if log[|log| - 1].Resynced? then 1 else 0)
  }

  /** Every I-block sent carries the next min(ifsc, left) unacknowledged bytes of the command,
      and its more bit says whether bytes remain after it. */
  ghost predicate SendsNextBytes(check: Check, cmd: seq<byte>, ifsc: nat, log: seq<Event>) {
    log == [] ||
    var front := log[..|log| - 1];
    var e := log[|log| - 1];
    && SendsNextBytes(check, cmd, ifsc, front)
    && (e.Sent? && IsIBlock(check, e.block) ==>
          var a, k := |AckedBytes(check, front)|, IfscIn(ifsc, front);
          && a <= |cmd|
          && Payload(check, e.block) == cmd[a..a + Min(k, |cmd| - a)]
          && (HasMore(e.block[PCB]) <==> |cmd| - a > k))
  }

  /** No block sent is longer than the information field size in force allows. */
  ghost predicate WithinIfsc(check: Check, ifsc: nat, log: seq<Event>) {
    log == [] ||
    var front := log[..|log| - 1];
    var e := log[|log| - 1];
    WithinIfsc(check, ifsc, front) && (e.Sent? ==> |e.block| <= 3 + IfscIn(ifsc, front) + check.rcBytes)
  }

  // ---- the invariant ----

  /** What is left of the command, and what of it is under way. */
  ghost predicate Remains(check: Check, cmd: seq<byte>, s: Session) {
    && (s.left == [] <==> !LastMore(check, cmd, s.log) && Settled(check, s.log))
    && (s.lastSend > 0 ==> !Settled(check, s.log) && (LastMore(check, cmd, s.log) <==> s.lastSend < |s.left|))
    && (s.lastSend == 0 ==> Settled(check, s.log) || ResyncRequests(s.log) > 0)
    && (s.phase == Receiving ==> s.lastSend == 0 || ResyncRequests(s.log) > 0)
    && (s.phase == Resynch ==> ResyncRequests(s.log) > 0)
  }

  /** Kept by every step, and inside each. */
  ghost predicate Kept(cfg: Config, cmd: seq<byte>, o: Opening, s: Session) {
    var check := cfg.line.check;
    && |s.buf| >= BUFFER_SIZE
    && cmd == AckedBytes(check, s.log) + s.left
    && s.lastSend <= |s.left|
    && (s.lastSend > 0 ==> LastI(check, s.log) == s.left[..s.lastSend])
    && Remains(check, cmd, s)
    && s.ifsc == IfscIn(o.ifsc, s.log)
    && (s.phase != Dead ==> s.nr == ExpectedNumber(o.nr, s.log))
    && AcksAreEarned(check, o.ns, s.log)
    && StoresAlternate(o.nr, s.log)
    && SendsNextBytes(check, cmd, o.ifsc, s.log)
    && WithinIfsc(check, o.ifsc, s.log)
    && s.rbuf == StoredBytes(s.log) && |s.rbuf| <= cfg.room
    && ResyncRequests(s.log) + s.resyncs <= RESYNCS * (1 + ResyncAnswers(s.log))
  }

  /** At the top of the loop: while the host sends, or waits for a resync, its number is that of its
      last I-block; while it sends, the card has not begun to answer. */
  ghost predicate InTurn(cfg: Config, o: Opening, s: Session) {
    && (s.phase == Sending || s.phase == Resynch ==> s.ns == SendNumber(cfg.line.check, o.ns, s.log))
    && (s.phase == Sending ==> IBlocksHeard(s.log) == 0)
  }

  ghost predicate Inv(cfg: Config, cmd: seq<byte>, o: Opening, s: Session) {
    Kept(cfg, cmd, o, s) && InTurn(cfg, o, s)
  }

  /** The same for all outcomes of a step; one that ends the call has no next turn. */
  ghost predicate KeptBy(cfg: Config, cmd: seq<byte>, o: Opening, r: Next) {
    Kept(cfg, cmd, o, r.s) && (r.Go? ==> InTurn(cfg, o, r.s)) && (r.Done? ==> r.s.phase == Receiving)
  }

  /** The invariant holds but for the block just heard, and the size it may ask for. */
  ghost predicate JustHeard(cfg: Config, cmd: seq<byte>, o: Opening, s: Session, pcb: byte) {
    && Kept(cfg, cmd, o, s.(ifsc := IfscIn(o.ifsc, s.log))) && s.phase != Dead
    && s.log != []
    && var front, e := s.log[..|s.log| - 1], s.log[|s.log| - 1];
       && e.Heard? && e.pcb == pcb && e.first == s.buf[DATA]
       && s.ifsc == IfscIn(o.ifsc, front) && InTurn(cfg, o, s.(log := front))
  }

  lemma Appended(log: seq<Event>, e: Event)
    ensures (log + [e])[..|log|] == log && (log + [e])[|log|] == e
  {
  }

  /** What `t1_build` sends for an I-block. */
  lemma BuiltIBlock(check: Check, ns: bit, nr: bit, ifsc: nat, dad: byte, data: seq<byte>)
    ensures var b := Build(check, ns, nr, ifsc, dad, I_BLOCK, data);
      && IsIBlock(check, b) && Payload(check, b) == data[..Min(|data|, ifsc)]
      && (HasMore(b[PCB]) <==> |data| > ifsc) && !IsResyncRequest(b) && SeqOf(b[PCB]) == ns
      && |b| <= 3 + ifsc + check.rcBytes
  {
    var more := |data| > ifsc;
    NumberedI(more, ns, nr);
    var pcb := Numbered(if more then 0x20 else 0x00, ns, nr);
    var p := data[..Min(|data|, ifsc)];
    var b := Frame(check, dad, pcb, p);
    assert b[PCB] == b[..3][PCB];
    assert b == Build(check, ns, nr, ifsc, dad, I_BLOCK, data);
  }

  /** Blocks built from nothing or for an answer are not I-blocks; only the resync request is one. */
  lemma BuiltOther(check: Check, ns: bit, nr: bit, ifsc: nat, dad: byte, pcb: byte, data: seq<byte>)
    requires pcb >= 0x80
    ensures var b := Build(check, ns, nr, ifsc, dad, pcb, data);
      && !IsIBlock(check, b) && (IsResyncRequest(b) <==> pcb == 0xC0 && |data| <= ifsc)
      && |b| <= 3 + ifsc + check.rcBytes
  {
    hide Numbered, SetBit, TypeOf;
    var b := Build(check, ns, nr, ifsc, dad, pcb, data);
    OtherControl(pcb, ns, nr, |data| > ifsc);
    assert b[PCB] == b[..3][PCB];
  }

  /** Setting the more bit or the number of an R-block leaves the type bits, and does not give 0xC0. */
  lemma SetBitKeepsType(pcb: byte, w: int)
    requires pcb >= 0x80 && w in {16, 32}
    ensures SetBit(pcb, w) / 64 == pcb / 64 && SetBit(pcb, w) != 0xC0 && SetBit(pcb, w) >= 0x80
  {
    var h, l := pcb / 16, pcb % 16;
    assert pcb == 16 * h + l && 8 <= h <= 15;
    SetUpperBit(h, l, w);
    var g := if w == 16 then (if h % 2 == 1 then h else h + 1) else if h / 2 % 2 == 1 then h else h + 2;
    Quarter(h, l);
    Quarter(g, l);
    hide SetBit;
    assert g / 4 == h / 4 && g != 12 && g >= 8;
  }

  lemma SetUpperBit(h: nat, l: nat, w: int)
    requires 8 <= h <= 15 && l < 16 && w in {16, 32}
    ensures SetBit(16 * h + l, w) ==
      16 * (if w == 16 then (if h % 2 == 1 then h else h + 1) else if h / 2 % 2 == 1 then h else h + 2) + l
  {
    assert (16 * h + l) / 16 == h && (16 * h + l) / 32 == h / 2;
  }

  lemma Quarter(h: nat, l: nat)
    requires l < 16
    ensures (16 * h + l) / 64 == h / 4
  {
  }

  lemma OtherControl(pcb: byte, ns: bit, nr: bit, more: bool)
    requires pcb >= 0x80
    ensures var q := Numbered(if more then SetBit(pcb, 32) else pcb, ns, nr);
      TypeOf(q) != IBlock && (q == 0xC0 <==> pcb == 0xC0 && !more)
  {
    hide SetBit;
    var p := if more then SetBit(pcb, 32) else pcb;
    SetBitKeepsType(pcb, 32);
    SetBitKeepsType(p, 16);
  }

  // ---- every step keeps the invariant ----

  /** Sending a block other than a resync request changes only what speaks of blocks sent. */
  lemma AfterSend(check: Check, cmd: seq<byte>, o: Opening, log: seq<Event>, b: seq<byte>)
    requires !IsResyncRequest(b)
    ensures var after := log + [Sent(b)];
      && LastMore(check, cmd, after) == (if IsIBlock(check, b) then HasMore(b[PCB]) else LastMore(check, cmd, log))
      && Settled(check, after) == (if IsIBlock(check, b) then Payload(check, b) == [] else Settled(check, log))
      && AckedBytes(check, after) == AckedBytes(check, log) && IfscIn(o.ifsc, after) == IfscIn(o.ifsc, log)
      && ExpectedNumber(o.nr, after) == ExpectedNumber(o.nr, log)
      && StoresAlternate(o.nr, after) == StoresAlternate(o.nr, log)
      && AcksAreEarned(check, o.ns, after) == AcksAreEarned(check, o.ns, log)
      && StoredBytes(after) == StoredBytes(log) && IBlocksHeard(after) == IBlocksHeard(log)
      && ResyncRequests(after) == ResyncRequests(log) && ResyncAnswers(after) == ResyncAnswers(log)
      && WithinIfsc(check, o.ifsc, after)
         == (WithinIfsc(check, o.ifsc, log) && |b| <= 3 + IfscIn(o.ifsc, log) + check.rcBytes)
      && LastI(check, after) == (if IsIBlock(check, b) then Payload(check, b) else LastI(check, log))
      && SendNumber(check, o.ns, after) == if IsIBlock(check, b) then SeqOf(b[PCB]) else SendNumber(check, o.ns, log)
  {
    Appended(log, Sent(b));
  }

  lemma AfterResyncRequest(check: Check, cmd: seq<byte>, o: Opening, log: seq<Event>, b: seq<byte>)
    requires IsResyncRequest(b) && !IsIBlock(check, b)
    ensures var after := log + [Sent(b)];
      && LastMore(check, cmd, after) == LastMore(check, cmd, log) && Settled(check, after) == Settled(check, log)
      && AckedBytes(check, after) == AckedBytes(check, log) && IfscIn(o.ifsc, after) == IfscIn(o.ifsc, log)
      && ExpectedNumber(o.nr, after) == 0 && SendNumber(check, o.ns, after) == 0
      && StoresAlternate(o.nr, after) == StoresAlternate(o.nr, log)
      && AcksAreEarned(check, o.ns, after) == AcksAreEarned(check, o.ns, log)
      && StoredBytes(after) == StoredBytes(log)
      && ResyncRequests(after) == ResyncRequests(log) + 1 && ResyncAnswers(after) == ResyncAnswers(log)
      && SendsNextBytes(check, cmd, o.ifsc, after) == SendsNextBytes(check, cmd, o.ifsc, log)
      && WithinIfsc(check, o.ifsc, after)
         == (WithinIfsc(check, o.ifsc, log) && |b| <= 3 + IfscIn(o.ifsc, log) + check.rcBytes)
      && LastI(check, after) == LastI(check, log)
  {
    Appended(log, Sent(b));
  }

  /** The I-block just built: it carries the next bytes and the host's number. */
  lemma SendIKeeps(cfg: Config, cmd: seq<byte>, o: Opening, s: Session)
    requires Kept(cfg, cmd, o, s) && s.phase != Receiving
    ensures var t := SendI(cfg, s);
      && Kept(cfg, cmd, o, t) && SendNumber(cfg.line.check, o.ns, t.log) == s.ns
      && IBlocksHeard(t.log) == IBlocksHeard(s.log) && t.phase == s.phase && t.ns == s.ns
  {
    hide Frame, Build, SendNumber, AcksAreEarned, StoresAlternate, WithinIfsc, ResyncRequests, ResyncAnswers,
      IBlocksHeard;
    hide AckedBytes, LastI, IfscIn, ExpectedNumber, StoredBytes, SendsNextBytes, IsResyncRequest, IsIBlock;
    hide LastMore, Settled;
    var check := cfg.line.check;
    var b := Build(check, s.ns, s.nr, s.ifsc, cfg.dad, I_BLOCK, s.left);
    BuiltIBlock(check, s.ns, s.nr, s.ifsc, cfg.dad, s.left);
    AfterSend(check, cmd, o, s.log, b);
    NextBytesSent(check, cmd, o.ifsc, s.log, s.left, b);
  }

  lemma NextBytesSent(check: Check, cmd: seq<byte>, ifsc: nat, log: seq<Event>, left: seq<byte>, b: seq<byte>)
    requires SendsNextBytes(check, cmd, ifsc, log) && cmd == AckedBytes(check, log) + left && IsIBlock(check, b)
    requires var k := IfscIn(ifsc, log);
      Payload(check, b) == left[..Min(|left|, k)] && (HasMore(b[PCB]) <==> |left| > k)
    ensures SendsNextBytes(check, cmd, ifsc, log + [Sent(b)])
  {
    hide AckedBytes, IfscIn, IsIBlock, HasMore;
    Appended(log, Sent(b));
    var a, k := |AckedBytes(check, log)|, IfscIn(ifsc, log);
    assert cmd[a..] == left;
    assert cmd[a..a + Min(k, |cmd| - a)] == left[..Min(|left|, k)];
  }

  lemma SendOtherKeeps(cfg: Config, cmd: seq<byte>, o: Opening, s: Session, pcb: byte, data: seq<byte>)
    requires Kept(cfg, cmd, o, s) && pcb >= 0x80 && pcb != 0xC0
    ensures var t := Put(cfg, s, pcb, data);
      Kept(cfg, cmd, o, t) && (InTurn(cfg, o, s) ==> InTurn(cfg, o, t))
  {
    hide Frame, Build, SendNumber, AcksAreEarned, StoresAlternate, WithinIfsc, ResyncRequests, ResyncAnswers,
      IBlocksHeard;
    var b := Build(cfg.line.check, s.ns, s.nr, s.ifsc, cfg.dad, pcb, data);
    BuiltOther(cfg.line.check, s.ns, s.nr, s.ifsc, cfg.dad, pcb, data);
    AfterSend(cfg.line.check, cmd, o, s.log, b);
    assert SendsNextBytes(cfg.line.check, cmd, o.ifsc, s.log + [Sent(b)]) by {
      Appended(s.log, Sent(b));
    }
  }

  lemma ResyncKeeps(cfg: Config, cmd: seq<byte>, o: Opening, s: Session)
    requires Kept(cfg, cmd, o, s)
    ensures KeptBy(cfg, cmd, o, Resync(cfg, s))
  {
    hide Frame, Build, AckedBytes, LastI, IfscIn, ExpectedNumber, AcksAreEarned, StoresAlternate;
    hide SendsNextBytes, WithinIfsc, StoredBytes, ResyncRequests, ResyncAnswers, SendNumber, IBlocksHeard;
    if s.resyncs > 0 {
      var b := Build(cfg.line.check, 0, 0, s.ifsc, cfg.dad, 0xC0, []);
      BuiltOther(cfg.line.check, 0, 0, s.ifsc, cfg.dad, 0xC0, []);
      AfterResyncRequest(cfg.line.check, cmd, o, s.log, b);
    }
  }

  lemma AckKeeps(cfg: Config, cmd: seq<byte>, o: Opening, s: Session)
    requires Kept(cfg, cmd, o, s) && Acknowledges(cfg.line.check, o.ns, s.log)
    ensures Kept(cfg, cmd, o, Ack(s))
      && SendNumber(cfg.line.check, o.ns, Ack(s).log) == SendNumber(cfg.line.check, o.ns, s.log)
    ensures IBlocksHeard(Ack(s).log) == IBlocksHeard(s.log) && LastHeard(Ack(s).log) == LastHeard(s.log)
  {
    hide Acknowledges;
    Appended(s.log, Acked);
    assert s.left == s.left[..s.lastSend] + s.left[s.lastSend..];
  }

  /** What hearing a block changes in the record. */
  lemma HeardFacts(cfg: Config, cmd: seq<byte>, o: Opening, s: Session, pcb: byte)
    requires JustHeard(cfg, cmd, o, s, pcb)
    ensures LastHeard(s.log).Told? && LastHeard(s.log).pcb == pcb
      && LastHeard(s.log).payload == s.log[|s.log| - 1].payload
    ensures s.phase == Sending || s.phase == Resynch ==> s.ns == SendNumber(cfg.line.check, o.ns, s.log)
    ensures s.phase == Sending ==> IBlocksHeard(s.log) == if TypeOf(pcb) == IBlock then 1 else 0
    ensures |s.buf| >= BUFFER_SIZE
    ensures Kept(cfg, cmd, o, if pcb in {0xC1, 0xD1} && s.buf[DATA] != 0 then SetIfsc(s, s.buf[DATA]) else s)
  {
    assert s.(ifsc := s.ifsc) == s;
  }

  lemma HeedKeeps(cfg: Config, cmd: seq<byte>, o: Opening, s: Session, raw: seq<byte>)
    requires Inv(cfg, cmd, o, s) && s.phase != Dead
    ensures JustHeard(cfg, cmd, o, Heed(s, raw), s.buf[PCB])
  {
    Appended(s.log, Heard(s.buf[PCB], s.buf[DATA], s.buf[DATA..DATA + s.buf[LEN]], raw));
  }

  lemma NotSized(pcb: byte)
    ensures TypeOf(pcb) != SBlock || IsResponse(pcb) ==> pcb !in {0xC1, 0xD1}
  {
  }

  lemma OnRKeeps(cfg: Config, cmd: seq<byte>, o: Opening, s: Session, pcb: byte)
    requires JustHeard(cfg, cmd, o, s, pcb) && TypeOf(pcb) == RBlock
    ensures KeptBy(cfg, cmd, o, OnR(cfg, s, pcb))
  {
    hide Put, Kept, SendNumber, IBlocksHeard, LastHeard;
    HeardFacts(cfg, cmd, o, s, pcb);
    NotSized(pcb);
    if LowNibble(pcb) != 0 {
      ResyncKeeps(cfg, cmd, o, s);
    } else if s.phase == Receiving {
      SendOtherKeeps(cfg, cmd, o, s, R_BLOCK, []);
      RefillKeeps(cfg, cmd, o, SendR(cfg, s, 0));
    } else if SeqOf(pcb) != s.ns {
      AckKeeps(cfg, cmd, o, s);
      var t := Ack(s).(sentLength := s.sentLength + s.lastSend, ns := Flip(s.ns));
      Unrelated(cfg, cmd, o, Ack(s), t);
      GoesOn(cfg, cmd, o, t);
    } else {
      GoesOn(cfg, cmd, o, s);
    }
  }

  /** The next I-block, or a resync if there is nothing left to send. */
  lemma GoesOn(cfg: Config, cmd: seq<byte>, o: Opening, t: Session)
    requires Kept(cfg, cmd, o, t) && (t.phase == Sending || t.phase == Resynch)
    requires t.phase == Sending ==> IBlocksHeard(t.log) == 0
    ensures KeptBy(cfg, cmd, o, if t.left == [] then Resync(cfg, t) else Go(Refill(cfg, SendI(cfg, t))))
  {
    hide Put, Kept, SendNumber, IBlocksHeard;
    if t.left == [] {
      ResyncKeeps(cfg, cmd, o, t);
    } else {
      SendIKeeps(cfg, cmd, o, t);
      RefillKeeps(cfg, cmd, o, SendI(cfg, t));
    }
  }

  lemma RefillKeeps(cfg: Config, cmd: seq<byte>, o: Opening, s: Session)
    requires Kept(cfg, cmd, o, s)
    ensures Kept(cfg, cmd, o, Refill(cfg, s))
  {
  }

  /** What `Kept` does not speak of. */
  lemma Unrelated(cfg: Config, cmd: seq<byte>, o: Opening, s: Session, t: Session)
    requires Kept(cfg, cmd, o, s) && s.phase != Dead
    requires t.phase == Receiving ==> s.lastSend == 0 || s.phase != Sending
    requires t.phase == Resynch ==> s.phase == Resynch
    requires t == s.(phase := t.phase, ns := t.ns, wtx := t.wtx, retries := t.retries, sentLength := t.sentLength)
    ensures Kept(cfg, cmd, o, t)
  {
  }

  lemma AcceptKeeps(cfg: Config, cmd: seq<byte>, o: Opening, t: Session, pcb: byte, data: seq<byte>, more: bool)
    requires Kept(cfg, cmd, o, t) && t.phase == Receiving
    requires LastHeard(t.log).Told? && LastHeard(t.log).pcb == pcb && LastHeard(t.log).payload == data
    requires TypeOf(pcb) == IBlock && SeqOf(pcb) == t.nr
    ensures KeptBy(cfg, cmd, o, Accept(cfg, t, data, more))
  {
    hide Put;
    if |t.rbuf| + |data| <= cfg.room {
      Appended(t.log, Stored);
      var v := t.(nr := Flip(t.nr), rbuf := t.rbuf + data, log := t.log + [Stored]);
      assert Kept(cfg, cmd, o, v);
      SendOtherKeeps(cfg, cmd, o, v, R_BLOCK, []);
    }
  }

  /** A block is stored only if it carries the expected number. */
  lemma OnIKeeps(cfg: Config, cmd: seq<byte>, o: Opening, s: Session, pcb: byte)
    requires JustHeard(cfg, cmd, o, s, pcb) && TypeOf(pcb) == IBlock
    requires s.log[|s.log| - 1].payload == s.buf[DATA..DATA + s.buf[LEN]]
    ensures KeptBy(cfg, cmd, o, OnI(cfg, s, pcb))
  {
    hide Put, Accept, Kept, SendNumber, IBlocksHeard, LastHeard;
    HeardFacts(cfg, cmd, o, s, pcb);
    NotSized(pcb);
    if s.phase == Sending {
      AckKeeps(cfg, cmd, o, s);
    }
    var t := (if s.phase == Sending then Ack(s).(ns := Flip(s.ns)) else s).(phase := Receiving);
    Unrelated(cfg, cmd, o, if s.phase == Sending then Ack(s) else s, t);
    if SeqOf(pcb) != t.nr {
      SendOtherKeeps(cfg, cmd, o, t, R_BLOCK + OTHER_ERROR, []);
    } else {
      AcceptKeeps(cfg, cmd, o, t, pcb, s.buf[DATA..DATA + s.buf[LEN]], HasMore(pcb));
    }
  }

  lemma KeptBuffer(cfg: Config, cmd: seq<byte>, o: Opening, s: Session)
    requires Kept(cfg, cmd, o, s)
    ensures |s.buf| >= BUFFER_SIZE
  {
  }

  lemma RestartKeeps(cfg: Config, cmd: seq<byte>, o: Opening, s: Session)
    requires Kept(cfg, cmd, o, s) && s.phase == Resynch
    ensures Kept(cfg, cmd, o, Restarted(cfg, s)) && IBlocksHeard(Restarted(cfg, s).log) == 0
  {
    Appended(s.log, Resynced);
  }

  lemma RespondKeeps(cfg: Config, cmd: seq<byte>, o: Opening, s: Session, pcb: byte, data: seq<byte>)
    requires Kept(cfg, cmd, o, s) && InTurn(cfg, o, s)
    ensures KeptBy(cfg, cmd, o, Respond(cfg, s, pcb, data))
  {
    hide Put, Kept, SendNumber, IBlocksHeard;
    var answer := S_BLOCK + S_RESPONSE + LowNibble(pcb);
    SendOtherKeeps(cfg, cmd, o, s, answer, data);
    RefillKeeps(cfg, cmd, o, Put(cfg, s, answer, data));
  }

  lemma OnRequestKeeps(cfg: Config, cmd: seq<byte>, o: Opening, s: Session, pcb: byte)
    requires JustHeard(cfg, cmd, o, s, pcb) && TypeOf(pcb) == SBlock && !IsResponse(pcb)
    ensures |s.buf| >= BUFFER_SIZE && KeptBy(cfg, cmd, o, OnRequest(cfg, s, pcb))
  {
    hide Put, Respond, Resync, Kept, SendNumber, IBlocksHeard, LastHeard, IfscIn, TypeOf, IsResponse, LowNibble;
    HeardFacts(cfg, cmd, o, s, pcb);
    RequestTypes(pcb);
    var size := s.buf[DATA];
    match LowNibble(pcb)
    case 2 =>
      RespondKeeps(cfg, cmd, o, s, pcb, []);
    case 1 =>
      if size == 0 {
        ResyncKeeps(cfg, cmd, o, s);
      } else {
        RespondKeeps(cfg, cmd, o, SetIfsc(s, size), pcb, [size]);
      }
    case 3 =>
      Unrelated(cfg, cmd, o, s, s.(wtx := size));
      RespondKeeps(cfg, cmd, o, s.(wtx := size), pcb, [size]);
    case _ =>
      ResyncKeeps(cfg, cmd, o, s);
  }

  /** By number, the requests of a card: resync, information field size, abort, waiting time. */
  lemma RequestTypes(pcb: byte)
    requires TypeOf(pcb) == SBlock && !IsResponse(pcb)
    ensures LowNibble(pcb) == 1 <==> pcb in {0xC1, 0xD1}
    ensures TypeOf(pcb) != IBlock
  {
  }

  lemma OnSKeeps(cfg: Config, cmd: seq<byte>, o: Opening, s: Session, pcb: byte)
    requires JustHeard(cfg, cmd, o, s, pcb) && TypeOf(pcb) == SBlock
    ensures |s.buf| >= BUFFER_SIZE && KeptBy(cfg, cmd, o, OnS(cfg, s, pcb))
  {
    hide Put, Kept, SendNumber, IBlocksHeard, LastHeard;
    HeardFacts(cfg, cmd, o, s, pcb);
    NotSized(pcb);
    if !IsResponse(pcb) {
      OnRequestKeeps(cfg, cmd, o, s, pcb);
    } else if s.phase == Resynch {
      RestartKeeps(cfg, cmd, o, s);
      SendIKeeps(cfg, cmd, o, Restarted(cfg, s));
    } else {
      ResyncKeeps(cfg, cmd, o, s);
    }
  }

  lemma ReceivedKeeps(cfg: Config, cmd: seq<byte>, o: Opening, s: Session, buf: seq<byte>)
    requires Inv(cfg, cmd, o, s) && |buf| >= BUFFER_SIZE
    ensures Inv(cfg, cmd, o, s.(buf := buf, retries := Decrement(s.retries), wtx := 0))
    ensures Kept(cfg, cmd, o, Kill(s.(retries := Decrement(s.retries), wtx := 0)))
  {
  }

  /** One turn of the loop keeps the invariant, and only a failed call is dead. */
  lemma StepKeeps(cfg: Config, cmd: seq<byte>, o: Opening, s: Session, raw: Raw)
    requires Inv(cfg, cmd, o, s) && s.phase != Dead
    ensures |s.buf| >= BUFFER_SIZE
    ensures var r := Step(cfg, s, raw);
      KeptBy(cfg, cmd, o, r) && (r.Failed? <==> r.s.phase == Dead)
  {
    hide Put, OnR, OnI, OnS, Resync, Kept, InTurn, KeptBy, JustHeard;
    KeptBuffer(cfg, cmd, o, s);
    var t := s.(retries := Decrement(s.retries), wtx := 0);
    match Receive(cfg.line, raw, t.buf)
    case Lost =>
      ReceivedKeeps(cfg, cmd, o, s, s.buf);
      Ended(cfg, cmd, o, Failed(Kill(t)));
    case Got(buf, n) =>
      ReceivedKeeps(cfg, cmd, o, s, buf);
      var u := t.(buf := buf);
      if !Verify(cfg.line.check, buf, n) {
        if u.retries == 0 || u.sentLength != 0 {
          ResyncKeeps(cfg, cmd, o, u);
        } else {
          SendOtherKeeps(cfg, cmd, o, u, R_BLOCK + EDC_ERROR, []);
          Going(cfg, cmd, o, SendR(cfg, u, EDC_ERROR));
        }
      } else {
        HeedKeeps(cfg, cmd, o, u, raw.data);
        HeardPayload(u, raw.data);
        match TypeOf(buf[PCB])
        case RBlock => OnRKeeps(cfg, cmd, o, Heed(u, raw.data), buf[PCB]);
        case IBlock => OnIKeeps(cfg, cmd, o, Heed(u, raw.data), buf[PCB]);
        case SBlock => OnSKeeps(cfg, cmd, o, Heed(u, raw.data), buf[PCB]);
      }
  }

  lemma Ended(cfg: Config, cmd: seq<byte>, o: Opening, r: Next)
    requires Kept(cfg, cmd, o, r.s) && r.Failed?
    ensures KeptBy(cfg, cmd, o, r)
  {
  }

  lemma Going(cfg: Config, cmd: seq<byte>, o: Opening, s: Session)
    requires Kept(cfg, cmd, o, s) && InTurn(cfg, o, s)
    ensures KeptBy(cfg, cmd, o, Go(s))
  {
  }

  lemma HeardPayload(s: Session, raw: seq<byte>)
    requires |s.buf| >= BUFFER_SIZE
    ensures var log := Heed(s, raw).log;
      log != [] && log[|log| - 1] == Heard(s.buf[PCB], s.buf[DATA], s.buf[DATA..DATA + s.buf[LEN]], raw)
  {
  }

  /** A whole run, against any card. */
  lemma {:induction false} RunKeeps(cfg: Config, cmd: seq<byte>, o: Opening, s: Session, answers: seq<Raw>)
    requires Inv(cfg, cmd, o, s) && s.phase != Dead
    ensures |s.buf| >= BUFFER_SIZE
    ensures var r := Run(cfg, s, answers);
      Kept(cfg, cmd, o, r.s) && (if r.Failed? then r.s.phase == Dead else r.Done? && r.s.phase == Receiving)
    decreases |answers|
  {
    hide Step, Kept, InTurn;
    if answers == [] {
      StepKeeps(cfg, cmd, o, s, Silence);
      SilenceEnds(cfg, s);
    } else {
      StepKeeps(cfg, cmd, o, s, answers[0]);
      var next := Step(cfg, s, answers[0]);
      if next.Go? {
        RunKeeps(cfg, cmd, o, next.s, answers[1..]);
      }
    }
  }

  lemma SilenceEnds(cfg: Config, s: Session)
    requires |s.buf| >= BUFFER_SIZE
    ensures Step(cfg, s, Silence).Failed?
  {
  }

  lemma StartKeeps(cfg: Config, o: Opening, wtx: nat, buf: seq<byte>, cmd: seq<byte>)
    requires |buf| >= BUFFER_SIZE
    ensures var s := Start(cfg, o.ns, o.nr, o.ifsc, wtx, buf, cmd);
      Inv(cfg, cmd, o, s) && s.phase == Sending
  {
    SendIKeeps(cfg, cmd, o, Session(Sending, o.ns, o.nr, o.ifsc, wtx, cfg.tries, RESYNCS, 0, 0, cmd, [], buf, [], []));
  }

  /** A whole call, against any card whatever it answers: what the card acknowledged and what is left
      are the command; every I-block carried the next bytes; what is returned are the payloads of
      I-blocks heard, with alternating numbers and within the room; what is heard was read from the
      deliveries, in their order, and stood there exactly if they were complete; the resync budget
      holds; only failure is Dead. A call that succeeds has sent the whole command exactly if the last
      I-block said so and, where there was a resync request, was acknowledged. */
  lemma AnyCard(cfg: Config, o: Opening, wtx: nat, buf: seq<byte>, cmd: seq<byte>, answers: seq<Raw>)
    requires |buf| >= BUFFER_SIZE
    ensures var r := Run(cfg, Start(cfg, o.ns, o.nr, o.ifsc, wtx, buf, cmd), answers);
      var check, s := cfg.line.check, r.s;
      && (if r.Failed? then s.phase == Dead else r.Done? && s.phase != Dead)
      && AckedBytes(check, s.log) + s.left == cmd && s.lastSend <= |s.left| && AcksAreEarned(check, o.ns, s.log)
      && SendsNextBytes(check, cmd, o.ifsc, s.log) && WithinIfsc(check, o.ifsc, s.log)
      && StoresAlternate(o.nr, s.log) && s.rbuf == StoredBytes(s.log) && |s.rbuf| <= cfg.room
      && HeardFrom(cfg.line, HeardIn(s.log), answers)
      && ResyncRequests(s.log) <= RESYNCS * (1 + ResyncAnswers(s.log))
      && (s.left == [] <==> !LastMore(check, cmd, s.log) && Settled(check, s.log))
      && (r.Done? && ResyncRequests(s.log) == 0 ==> (s.left == [] <==> !LastMore(check, cmd, s.log)))
  {
    hide AckedBytes, SendsNextBytes, StoresAlternate, StoredBytes, ResyncRequests, ResyncAnswers, Step, Start, Run;
    hide AcksAreEarned, WithinIfsc, HeardFrom, LastMore, Settled;
    var s := Start(cfg, o.ns, o.nr, o.ifsc, wtx, buf, cmd);
    StartKeeps(cfg, o, wtx, buf, cmd);
    RunKeeps(cfg, cmd, o, s, answers);
    StartUnheard(cfg, o, wtx, buf, cmd);
    var heard := RunHears(cfg, s, answers);
    assert [] + heard == heard;
  }

  lemma StartUnheard(cfg: Config, o: Opening, wtx: nat, buf: seq<byte>, cmd: seq<byte>)
    ensures var s := Start(cfg, o.ns, o.nr, o.ifsc, wtx, buf, cmd); HeardIn(s.log) == [] && |s.buf| >= |buf|
  {
    hide Put;
    var s := Session(Sending, o.ns, o.nr, o.ifsc, wtx, cfg.tries, RESYNCS, 0, 0, cmd, [], buf, [], []);
    PutUnheard(cfg, s, I_BLOCK, cmd);
  }

  /** Whatever is stored or acknowledged in a call was said in one of the deliveries, if that was
      complete, as on a serial line all that count are. */
  lemma SaidByTheCard(cfg: Config, o: Opening, wtx: nat, buf: seq<byte>, cmd: seq<byte>, answers: seq<Raw>, i: nat)
    returns (k: nat)
    requires |buf| >= BUFFER_SIZE
    requires var log := Run(cfg, Start(cfg, o.ns, o.nr, o.ifsc, wtx, buf, cmd), answers).s.log;
      i < |log| && (log[i].Stored? || log[i].Acked?)
    ensures var log := Run(cfg, Start(cfg, o.ns, o.nr, o.ifsc, wtx, buf, cmd), answers).s.log;
      var t := LastHeard(log[..i]);
      && t.Told? && k < |answers| && answers[k] == Delivery(t.raw)
      && (StandsIn(cfg.line, t.raw, t.pcb, t.payload) <==> Complete(cfg.line, t.raw))
      && (!cfg.line.blockOriented ==> Complete(cfg.line, t.raw))
  {
    hide Start, Run, StandsIn, Complete, HeardFrom, LastHeard, AcksAreEarned, StoresAlternate;
    StartUnheard(cfg, o, wtx, buf, cmd);
    AnyCard(cfg, o, wtx, buf, cmd, answers);
    var log := Run(cfg, Start(cfg, o.ns, o.nr, o.ifsc, wtx, buf, cmd), answers).s.log;
    EarnedAt(cfg.line.check, o, log, i);
    var j := ToldIs(log, i);
    k := HeardAt(cfg.line, HeardIn(log), answers, j);
  }

  lemma {:induction false} EarnedAt(check: Check, o: Opening, log: seq<Event>, i: nat)
    requires AcksAreEarned(check, o.ns, log) && StoresAlternate(o.nr, log)
    requires i < |log| && (log[i].Stored? || log[i].Acked?)
    ensures LastHeard(log[..i]).Told?
  {
    var front := log[..|log| - 1];
    if i < |front| {
      EarnedAt(check, o, front, i);
      assert front[..i] == log[..i];
    } else {
      assert front == log[..i];
    }
  }

  /** The last block heard before event `i` is among those heard. */
  lemma {:induction false} ToldIs(log: seq<Event>, i: nat) returns (j: nat)
    requires i <= |log| && LastHeard(log[..i]).Told?
    ensures j < |HeardIn(log)|
    ensures var t := LastHeard(log[..i]); HeardIn(log)[j] == Heard(t.pcb, t.first, t.payload, t.raw)
    decreases |log|
  {
    var front := log[..|log| - 1];
    if i < |log| {
      assert front[..i] == log[..i];
      j := ToldIs(front, i);
    } else {
      assert log[..i] == log;
      if log[|log| - 1].Heard? {
        j := |HeardIn(front)|;
      } else {
        assert front[..|front|] == front;
        j := ToldIs(front, |front|);
      }
    }
  }

  // ---- what the invariant says about one event ----

  /** A repeated block is never stored twice: of two blocks stored with no other between them, and
      no resync request, the numbers differ. */
  lemma NeverStoredTwice(nr: bit, log: seq<Event>, i: nat, j: nat)
    requires StoresAlternate(nr, log) && i < j < |log| && log[i].Stored? && log[j].Stored?
    requires forall k | i < k < j :: !log[k].Stored? && !(log[k].Sent? && IsResyncRequest(log[k].block))
    ensures var a, b := LastHeard(log[..i]), LastHeard(log[..j]);
      a.Told? && b.Told? && TypeOf(a.pcb) == IBlock && TypeOf(b.pcb) == IBlock && SeqOf(b.pcb) != SeqOf(a.pcb)
  {
    hide LastHeard, ExpectedNumber, SeqOf, TypeOf;
    StoredAt(nr, log, i);
    StoredAt(nr, log, j);
    ExpectedAfter(nr, log, i, j);
  }

  lemma {:induction false} StoredAt(nr: bit, log: seq<Event>, i: nat)
    requires StoresAlternate(nr, log) && i < |log| && log[i].Stored?
    ensures var a := LastHeard(log[..i]);
      a.Told? && TypeOf(a.pcb) == IBlock && SeqOf(a.pcb) == ExpectedNumber(nr, log[..i])
  {
    var front := log[..|log| - 1];
    if i < |front| {
      StoredAt(nr, front, i);
      assert front[..i] == log[..i];
    } else {
      assert front == log[..i];
    }
  }

  lemma {:induction false} ExpectedAfter(nr: bit, log: seq<Event>, i: nat, j: nat)
    requires i < j <= |log| && log[i].Stored? && LastHeard(log[..i]).Told?
    requires forall k | i < k < j :: !log[k].Stored? && !(log[k].Sent? && IsResyncRequest(log[k].block))
    ensures ExpectedNumber(nr, log[..j]) == Flip(SeqOf(LastHeard(log[..i]).pcb))
    decreases j
  {
    var front := log[..j - 1];
    assert log[..j][..j - 1] == front && log[..j][j - 1] == log[j - 1];
    if j - 1 > i {
      ExpectedAfter(nr, log, i, j - 1);
    }
  }

  /** An R-block makes the host drop bytes exactly when it reports no error, the host is not
      receiving, the block asks for another number than the host's own, and bytes are under way. */
  lemma AcksExactly(cfg: Config, s: Session, pcb: byte)
    requires |s.buf| >= BUFFER_SIZE
    ensures var dropped := OnR(cfg, s, pcb).s.left != s.left;
      dropped <==> LowNibble(pcb) == 0 && s.phase != Receiving && SeqOf(pcb) != s.ns && 0 < s.lastSend <= |s.left|
  {
    hide Build;
    if 0 < s.lastSend <= |s.left| {
      assert |s.left[s.lastSend..]| < |s.left|;
    }
  }

  /** While the host waits for the answer to a resync request its number is 0, and so an R-block that
      asks for the very block sent last, number 1, counts as its acknowledgement: here the command
      fits one block, which the card asks for again, and the host drops it. */
  lemma AckDuringResync(cfg: Config, wtx: nat, buf: seq<byte>, cmd: seq<byte>, nad: byte)
    requires |buf| >= BUFFER_SIZE && 0 < |cmd| <= 254
    ensures var s0 := Start(cfg, 1, 0, 254, wtx, buf, cmd);
      var r1 := Step(cfg, s0, Delivery(Frame(cfg.line.check, nad, 0xE0, [])));
      var r2 := Step(cfg, r1.s, Delivery(Frame(cfg.line.check, nad, 0x90, [])));
      && SendNumber(cfg.line.check, 1, s0.log) == 1 == SeqOf(0x90) && s0.left == cmd
      && r1.Go? && |r1.s.buf| >= BUFFER_SIZE && r2.s.left == []
  {
    hide Frame, Build, Step;
    var s0 := Start(cfg, 1, 0, 254, wtx, buf, cmd);
    BuiltIBlock(cfg.line.check, 1, 0, 254, cfg.dad, cmd);
    Appended([], Sent(s0.out));
    StrayResponse(cfg, s0, nad);
    AskedAgain(cfg, Step(cfg, s0, Delivery(Frame(cfg.line.check, nad, 0xE0, []))).s, nad);
    assert cmd[|cmd|..] == [];
  }

  lemma StrayResponse(cfg: Config, s: Session, nad: byte)
    requires |s.buf| >= BUFFER_SIZE && s.phase == Sending && s.resyncs > 0
    ensures var r := Step(cfg, s, Delivery(Frame(cfg.line.check, nad, 0xE0, [])));
      && r.Go? && r.s.phase == Resynch && r.s.ns == r.s.nr == 0 && r.s.left == s.left && r.s.lastSend == s.lastSend
      && r.s.rbuf == s.rbuf
      && |r.s.buf| >= BUFFER_SIZE
  {
    hide Frame, Build, Step;
    StepOnFrame(cfg, s, nad, 0xE0, []);
  }

  lemma AskedAgain(cfg: Config, s: Session, nad: byte)
    requires |s.buf| >= BUFFER_SIZE && s.phase == Resynch && s.ns == 0 && 0 < s.lastSend <= |s.left|
    ensures Step(cfg, s, Delivery(Frame(cfg.line.check, nad, 0x90, []))).s.left == s.left[s.lastSend..]
  {
    hide Frame, Build, Step;
    StepOnFrame(cfg, s, nad, 0x90, []);
  }

  // ---- successes that are none ----

  /** En bloc, with a one-byte checksum, when both counters agree: if all that comes is the checksum of
      nothing, the zero byte of the LRC, then the rest of the buffer is the I-block just sent, and the
      command itself is returned as the answer. */
  lemma CommandReturned(cfg: Config, o: Opening, wtx: nat, buf: seq<byte>, cmd: seq<byte>)
    requires |buf| >= BUFFER_SIZE && cfg.line.blockOriented && cfg.line.check.rcBytes == 1 && o.ns == o.nr
    requires 1 <= |cmd| <= 254 && |cmd| <= o.ifsc && |cmd| <= cfg.room
    ensures var nothing := cfg.line.check.sum([]);
      var r := Step(cfg, Start(cfg, o.ns, o.nr, o.ifsc, wtx, buf, cmd), Delivery(nothing));
      r.Done? && r.s.rbuf == cmd && r.s.left == [] && !Complete(cfg.line, nothing)
  {
    hide Frame, Verify, OnI, SeqOf, HasMore, Step, Numbered, Complete;
    var check := cfg.line.check;
    var s0 := Start(cfg, o.ns, o.nr, o.ifsc, wtx, buf, cmd);
    var pcb := Numbered(0x00, o.ns, o.nr);
    NumberedI(false, o.ns, o.nr);
    assert cmd[..|cmd|] == cmd && s0.out == Frame(check, cfg.dad, pcb, cmd);
    FrameInBuffer(check, cfg.dad, pcb, cmd, buf);
    var nothing := check.sum([]);
    StepOnNothing(cfg, s0, nothing, pcb);
    var u := Heed(Loaded(s0, nothing), nothing);
    assert u.buf == nothing + s0.buf[1..];
    assert u.buf[DATA..DATA + |cmd|] == s0.buf[DATA..DATA + |cmd|] == cmd;
    ReplyTaken(cfg, u, pcb, cmd);
    assert cmd[|cmd|..] == [] && [] + cmd == cmd;
  }

  lemma StepOnNothing(cfg: Config, s: Session, nothing: seq<byte>, pcb: byte)
    requires |s.buf| >= BUFFER_SIZE && cfg.line.blockOriented && cfg.line.check.rcBytes == 1
    requires nothing == cfg.line.check.sum([]) && s.buf[PCB] == pcb && TypeOf(pcb) == IBlock
    ensures |Loaded(s, nothing).buf| >= BUFFER_SIZE && !Complete(cfg.line, nothing)
    ensures Step(cfg, s, Delivery(nothing)) == OnI(cfg, Heed(Loaded(s, nothing), nothing), pcb)
  {
    hide OnI, Verify, Receive, Complete;
    NothingReceived(cfg.line, nothing, s.buf);
    assert Overlay(s.buf, nothing) == nothing + s.buf[1..];
  }

  lemma NothingReceived(line: Line, nothing: seq<byte>, buf: seq<byte>)
    requires |buf| >= BUFFER_SIZE && line.blockOriented && line.check.rcBytes == 1 && nothing == line.check.sum([])
    ensures Receive(line, Delivery(nothing), buf) == Got(Overlay(buf, nothing), 1)
    ensures Verify(line.check, Overlay(buf, nothing), 1) && !Complete(line, nothing)
  {
    assert nothing[..1] == nothing && Portion(line, nothing, BUFFER_SIZE) == nothing;
    var b := Overlay(buf, nothing);
    assert b[0..1] == b[..1] == nothing && b[..0] == [];
  }

  /** An I-block with the number expected and nothing behind it ends the call, whatever is left. */
  lemma ReplyTaken(cfg: Config, u: Session, pcb: byte, piece: seq<byte>)
    requires |u.buf| >= BUFFER_SIZE && u.buf[DATA..DATA + u.buf[LEN]] == piece
    requires TypeOf(pcb) == IBlock && SeqOf(pcb) == u.nr && !HasMore(pcb) && |u.rbuf| + |piece| <= cfg.room
    ensures var r := OnI(cfg, u, pcb);
      && r.Done? && r.s.rbuf == u.rbuf + piece
      && r.s.left == if u.phase == Sending && 0 < u.lastSend <= |u.left| then u.left[u.lastSend..] else u.left
  {
    hide Put, SeqOf, HasMore;
  }

  /** A card that answers the first block of a chain ends the call: it succeeds, and the rest of the
      command is never sent. */
  lemma ChainCutShort(cfg: Config, o: Opening, wtx: nat, buf: seq<byte>, cmd: seq<byte>, nad: byte, piece: seq<byte>)
    requires |buf| >= BUFFER_SIZE && 1 <= o.ifsc < |cmd| && Passes(cfg.line, piece) && |piece| <= cfg.room
    ensures var f := Frame(cfg.line.check, nad, 64 * o.nr, piece);
      var r := Step(cfg, Start(cfg, o.ns, o.nr, o.ifsc, wtx, buf, cmd), Delivery(f));
      r.Done? && r.s.rbuf == piece && r.s.left == cmd[o.ifsc..] && r.s.left != []
  {
    hide Frame, Build, Step, OnI;
    var s := Start(cfg, o.ns, o.nr, o.ifsc, wtx, buf, cmd);
    var f := Frame(cfg.line.check, nad, 64 * o.nr, piece);
    StepOnFrame(cfg, s, nad, 64 * o.nr, piece);
    ReplyTaken(cfg, Heed(Loaded(s, f), f), 64 * o.nr, piece);
    assert [] + piece == piece;
  }

  /** So does one that answers while the host waits for the answer to a resync request: though the last
      I-block carried the whole command, none of it was acknowledged. */
  lemma AnsweredDuringResync(cfg: Config, wtx: nat, buf: seq<byte>, cmd: seq<byte>, nad: byte, piece: seq<byte>)
    requires |buf| >= BUFFER_SIZE && 0 < |cmd| <= 254 && Passes(cfg.line, piece) && |piece| <= cfg.room
    ensures var check := cfg.line.check;
      var s := Start(cfg, 1, 0, 254, wtx, buf, cmd);
      var r1 := Step(cfg, s, Delivery(Frame(check, nad, 0xE0, [])));
      && !LastMore(check, cmd, s.log) && r1.Go? && |r1.s.buf| >= BUFFER_SIZE
      && var r2 := Step(cfg, r1.s, Delivery(Frame(check, nad, 0x00, piece)));
         r2.Done? && r2.s.rbuf == piece && r2.s.left == cmd
  {
    hide Frame, Build, Step, OnI;
    var check := cfg.line.check;
    var s := Start(cfg, 1, 0, 254, wtx, buf, cmd);
    BuiltIBlock(check, 1, 0, 254, cfg.dad, cmd);
    Appended([], Sent(s.out));
    StrayResponse(cfg, s, nad);
    var t := Step(cfg, s, Delivery(Frame(check, nad, 0xE0, []))).s;
    var f := Frame(check, nad, 0x00, piece);
    StepOnFrame(cfg, t, nad, 0x00, piece);
    ReplyTaken(cfg, Heed(Loaded(t, f), f), 0x00, piece);
    assert [] + piece == piece;
  }

  // ---- the frame buffer ----

  /** A built block always fits the frame buffer exactly when the information field size does. */
  lemma BlocksFitExactly(check: Check, ns: bit, nr: bit, ifsc: nat, dad: byte)
    ensures (forall data: seq<byte> :: |Build(check, ns, nr, ifsc, dad, I_BLOCK, data)| <= BUFFER_SIZE)
      <==> 3 + ifsc + check.rcBytes <= BUFFER_SIZE
  {
    var most := seq<byte>(ifsc, _ => 0);
    assert |Build(check, ns, nr, ifsc, dad, I_BLOCK, most)| == 3 + ifsc + check.rcBytes;
  }

  predicate FitsBuffer(check: Check, ifsc: nat) {
    3 + ifsc + check.rcBytes <= BUFFER_SIZE
  }

  /** Over a whole call, no block sent overruns the frame buffer while every information field size
      in force fits; with the one-byte checksum no size a card asks for can do otherwise. */
  lemma {:induction false} NothingOverruns(check: Check, ifsc: nat, log: seq<Event>)
    requires WithinIfsc(check, ifsc, log) && FitsBuffer(check, ifsc)
    requires check.rcBytes == 1 ||
      forall e | e in log && e.Heard? && e.pcb in {0xC1, 0xD1} :: FitsBuffer(check, e.first)
    ensures FitsBuffer(check, IfscIn(ifsc, log))
    ensures forall e | e in log && e.Sent? :: |e.block| <= BUFFER_SIZE
  {
    if log != [] {
      var front := log[..|log| - 1];
      assert forall e | e in front :: e in log;
      NothingOverruns(check, ifsc, front);
      assert forall e | e in log :: e in front || e == log[|log| - 1];
      assert log[|log| - 1] in log;
    }
  }
}
