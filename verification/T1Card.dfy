/** A card that follows the T=1 rules of ISO/IEC 7816-3:2006, sections 11.6.2 and 11.6.3,
    and the conversation of `t1_transceive` with it. */
module T1Card {
  import opened Bytes
  import opened T1Block
  import opened T1Session

  /** The card's application: from the commands so far, the pieces of the answer to the last one. */
  type App = seq<seq<byte>> -> seq<seq<byte>>

  /** What the card does when it is its turn: answer, or first ask for more time or a new block size. */
  datatype Turn = Reply | Wtx(multiplier: byte) | Ifs(size: byte)

  datatype Owed = Nothing | OwesR | OwesI

  /** `vr` is the number it expects from the host, `vs` the number of its next I-block. `got`
      is the command so far, `done` the commands executed, `chunks` the pieces of the answer
      not yet sent, `plan` its coming turns, `last` the block it sent last, `takes` the longest
      information field it accepts, which it changes by a request. */
  datatype Card = Card(
    nad: byte, vr: bit, vs: bit, got: seq<byte>, done: seq<seq<byte>>,
    chunks: seq<seq<byte>>, owed: Owed, plan: seq<Turn>, last: seq<byte>, takes: nat)

  function Rest<T>(s: seq<T>): seq<T> {
    if s == [] then [] else s[1..]
  }

  /** The card sends what it owes, or a request of its own. */
  function Emit(check: Check, c: Card): Card
    requires c.owed.OwesI? ==> c.chunks != []
  {
    if c.plan != [] && c.plan[0].Wtx? then
      c.(plan := c.plan[1..], last := Frame(check, c.nad, 0xC3, [c.plan[0].multiplier]))
    else if c.plan != [] && c.plan[0].Ifs? then
      c.(plan := c.plan[1..], last := Frame(check, c.nad, 0xC1, [c.plan[0].size]), takes := c.plan[0].size)
    else
      var d := c.(plan := Rest(c.plan), owed := Nothing);
      match c.owed
      case Nothing => c
      case OwesR => d.(last := Frame(check, c.nad, 0x80 + 16 * c.vr, []))
      case OwesI =>
        d.(vs := Flip(c.vs), chunks := c.chunks[1..],
           last := Frame(check, c.nad, 64 * c.vs + (if |c.chunks| > 1 then 0x20 else 0), c.chunks[0]))
  }

  predicate SentI(c: Card) {
    |c.last| > PCB && TypeOf(c.last[PCB]) == IBlock
  }

  /** The card receives a block that arrived intact; if it stays as it is, it sends `last` again. */
  function CardStep(check: Check, app: App, c: Card, block: seq<byte>): Card
    requires forall h :: app(h) != []
  {
    if |block| < 3 + check.rcBytes || (c.owed.OwesI? && c.chunks == []) then c
    else
      var pcb, payload := block[PCB], block[3..|block| - check.rcBytes];
      match TypeOf(pcb)
      case IBlock =>
        var got := c.got + payload;
        if SeqOf(pcb) != c.vr || |payload| > c.takes then c
        else if HasMore(pcb) then Emit(check, c.(vr := Flip(c.vr), got := got, owed := OwesR))
        else
          var done := c.done + [got];
          Emit(check, c.(vr := Flip(c.vr), got := [], done := done, chunks := app(done), owed := OwesI))
      case RBlock =>
        if SentI(c) && c.owed.Nothing? && c.chunks != [] && SeqOf(pcb) == c.vs
        then Emit(check, c.(owed := OwesI)) else c
      case SBlock =>
        if IsResponse(pcb) then Emit(check, c) else c
  }

  // ---- the link ----

  /** What happens to a block of the card on its way. */
  datatype Fate = Intact | Garbled(data: seq<byte>)

  function Deliver(c: Card, noise: seq<Fate>): Raw {
    Delivery(if noise != [] && noise[0].Garbled? then noise[0].data else c.last)
  }

  /** The deliveries of the first `n` exchanges of a session with a card. */
  function Answers(cfg: Config, app: App, s: Session, c: Card, noise: seq<Fate>, n: nat): seq<Raw>
    requires |s.buf| >= BUFFER_SIZE && forall h :: app(h) != []
    decreases n
  {
    if n == 0 then []
    else
      var next := Step(cfg, s, Deliver(c, noise));
      [Deliver(c, noise)] +
      if next.Go? then Answers(cfg, app, next.s, CardStep(cfg.line.check, app, c, next.s.out), Rest(noise), n - 1)
      else []
  }

  /** The card after those exchanges. */
  function CardAfter(cfg: Config, app: App, s: Session, c: Card, noise: seq<Fate>, n: nat): Card
    requires |s.buf| >= BUFFER_SIZE && forall h :: app(h) != []
    decreases n
  {
    if n == 0 then c
    else
      var next := Step(cfg, s, Deliver(c, noise));
      if next.Go? then CardAfter(cfg, app, next.s, CardStep(cfg.line.check, app, c, next.s.out), Rest(noise), n - 1)
      else c
  }

  // ---- conformity ----

  /** A piece of an answer that the host's receive path takes. */
  predicate FitsFrame(line: Line, chunk: seq<byte>) {
    if line.blockOriented then |chunk| <= line.ifsd && |chunk| <= 254 else |chunk| <= 253
  }

  /** Every answer comes in at least one piece, each of a size the host takes. */
  ghost predicate Conforming(line: Line, app: App) {
    forall h: seq<seq<byte>> :: app(h) != [] && forall i | 0 <= i < |app(h)| :: FitsFrame(line, app(h)[i])
  }

  predicate GoodPlan(plan: seq<Turn>) {
    forall t | t in plan :: t.Ifs? ==> 1 <= t.size <= 254
  }

  /** A delivery that arrives but fails the checksum, whatever the buffer held. */
  ghost predicate Unreadable(line: Line, data: seq<byte>) {
    forall buf: seq<byte> | |buf| >= BUFFER_SIZE ::
      var r := Receive(line, Delivery(data), buf);
      r.Got? && !Verify(line.check, r.buf, r.n)
  }

  /** Never more unreadable deliveries in a row than the retries last: `retries` are left now,
      and every readable block refills them to `tries`. */
  ghost predicate Tolerable(line: Line, noise: seq<Fate>, retries: nat, tries: nat) {
    noise == [] ||
    match noise[0]
    case Intact => Tolerable(line, noise[1..], tries, tries)
    case Garbled(data) => retries >= 2 && Unreadable(line, data) && Tolerable(line, noise[1..], retries - 1, tries)
  }

  /** How many requests of its own the card makes before its next reply. */
  function LeadingRequests(plan: seq<Turn>): nat {
    if plan == [] || plan[0].Reply? then 0 else 1 + LeadingRequests(plan[1..])
  }

  /** All is intact after the first `k + 1` deliveries that are. */
  predicate Early(noise: seq<Fate>, k: nat) {
    noise == [] ||
    match noise[0]
    case Garbled(_) => Early(noise[1..], k)
    case Intact => if k == 0 then AllIntact(noise[1..]) else Early(noise[1..], k - 1)
  }

  predicate AllIntact(noise: seq<Fate>) {
    forall f | f in noise :: f.Intact?
  }

  /** Host and card agree between two calls. */
  ghost predicate InSync(ns: bit, nr: bit, ifsc: nat, c: Card) {
    && c.vr == ns && c.vs == nr && 1 <= ifsc <= c.takes <= 254
    && c.got == [] && c.chunks == [] && c.owed.Nothing? && GoodPlan(c.plan)
  }
}
