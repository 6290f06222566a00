/** The T=0 procedure-byte loop (proto-t0.c), against any card and against a conforming one. */
module T0 {
  import opened Bytes

  datatype State = Idle | Sending | Receiving | Confused

  /** A card as the host sees it: the byte at each position of what it sends, or nothing any more,
      and whether each send to it goes through. */
  datatype Card = Card(byteAt: nat -> int, accepts: nat -> bool)

  predicate Has(card: Card, pos: nat) {
    0 <= card.byteAt(pos) < 256
  }

  function ByteAt(card: Card, pos: nat): byte
    requires Has(card, pos)
  {
    card.byteAt(pos)
  }

  /** Whether `n` bytes come from `pos` on. */
  predicate HasRun(card: Card, pos: nat, n: nat) {
    forall i | pos <= i < pos + n :: Has(card, i)
  }

  function RunOf(card: Card, pos: nat, n: nat): (r: seq<byte>)
    requires HasRun(card, pos, n)
    ensures |r| == n
  {
    seq<byte>(n, i requires 0 <= i < n => ByteAt(card, pos + i))
  }

  /** How many bytes come from `pos` on, up to `n`. */
  function Available(card: Card, pos: nat, n: nat): (k: nat)
    ensures k <= n && (k > 0 <==> n > 0 && Has(card, pos))
    decreases n
  {
    if n == 0 || !Has(card, pos) then 0 else 1 + Available(card, pos + 1, n - 1)
  }

  lemma {:induction false} AvailableIsRun(card: Card, pos: nat, n: nat)
    ensures HasRun(card, pos, Available(card, pos, n))
    decreases n
  {
    if n > 0 && Has(card, pos) {
      AvailableIsRun(card, pos + 1, n - 1);
    }
  }

  lemma OneByte(card: Card, pos: nat)
    ensures HasRun(card, pos, 1) <==> Has(card, pos)
    ensures Has(card, pos) ==> RunOf(card, pos, 1) == [ByteAt(card, pos)]
  {
    if Has(card, pos) {
      assert HasRun(card, pos, 1);
      assert RunOf(card, pos, 1)[0] == ByteAt(card, pos + 0);
    } else {
      assert !Has(card, pos + 0);
    }
  }

  datatype Verdict = Finished | Failed | Unexpected

  /** The loop's variables: bytes read from the card, sends made, NULLs seen, what is left to
      send, what was sent, what was received, and whether a byte was written behind the room. */
  datatype Loop = Loop(
    pos: nat, sends: nat, nulls: nat, left: seq<byte>, sent: seq<byte>, rcv: seq<byte>, overrun: bool)

  datatype End = End(verdict: Verdict, loop: Loop)

  datatype Job = Job(card: Card, sending: bool, ins: byte, maxNulls: nat, room: nat)

  predicate IsStatus(b: byte) {
    b / 16 == 6 || b / 16 == 9
  }

  /** `((byte ^ ins) & 0xFE) == 0` */
  predicate IsAck(b: byte, ins: byte) {
    b / 2 == ins / 2
  }

  /** `((~byte ^ ins) & 0xFE) == 0` */
  predicate IsComplement(b: byte, ins: byte) {
    (255 - b) / 2 == ins / 2
  }

  /** `t0_send`: all that is left, or one byte; it fails when nothing is left. */
  function SendSome(j: Job, l: Loop, all: bool): (r: (Loop, bool))
    ensures r.1 ==> |r.0.left| < |l.left| && r.0.rcv == l.rcv && r.0.nulls == l.nulls && r.0.overrun == l.overrun
  {
    if l.left == [] || !j.card.accepts(l.sends) then (l, false)
    else
      var n := if all then |l.left| else 1;
      (l.(left := l.left[n..], sent := l.sent + l.left[..n], sends := l.sends + 1), true)
  }

  /** `t0_recv`: as much as there is room for, or `n` bytes. The device puts them behind the bytes
      received without looking at the room; then they are counted only if there was room. */
  function RecvSome(j: Job, l: Loop, n: nat): (r: (Loop, bool))
    ensures r.0.left == l.left && r.0.nulls == l.nulls
    ensures r.1 && |l.rcv| + n <= j.room ==> |r.0.rcv| == |l.rcv| + n
    ensures r.1 && |l.rcv| + n > j.room ==> r.0.rcv == l.rcv
  {
    if !HasRun(j.card, l.pos, n) then (l, false)
    else
      (l.(pos := l.pos + n,
          rcv := if |l.rcv| + n <= j.room then l.rcv + RunOf(j.card, l.pos, n) else l.rcv,
          overrun := l.overrun || |l.rcv| + n > j.room), true)
  }

  /** What is still possible: NULLs allowed, bytes to send, room to receive. */
  function Measure(j: Job, l: Loop): nat
    requires l.nulls <= j.maxNulls && |l.rcv| <= j.room
  {
    (j.maxNulls - l.nulls) + |l.left| + (j.room - |l.rcv|)
  }

  datatype Next = Again(loop: Loop) | Stop(end: End)

  /** One round of the loop: one procedure byte and what it asks for. */
  function Step(j: Job, l: Loop): Next {
    if !Has(j.card, l.pos) then Stop(End(Failed, l))
    else
      var b: byte := j.card.byteAt(l.pos);
      var m := l.(pos := l.pos + 1);
      if b == 0x60 then
        var n := m.(nulls := l.nulls + 1);
        if n.nulls > j.maxNulls then Stop(End(Failed, n)) else Again(n)
      else if IsStatus(b) then
        if |m.rcv| + 1 > j.room then Stop(End(Failed, m))
        else
          var (n, ok) := RecvSome(j, m.(rcv := m.rcv + [b]), 1);
          Stop(End(if ok then Finished else Failed, n))
      else if !IsAck(b, j.ins) && !IsComplement(b, j.ins) then Stop(End(Unexpected, m))
      else if j.sending then
        var (n, ok) := SendSome(j, m, IsAck(b, j.ins));
        if ok then Again(n) else Stop(End(Failed, n))
      else
        var (n, ok) := RecvSome(j, m, if IsAck(b, j.ins) && |m.rcv| <= j.room then j.room - |m.rcv| else 1);
        if !ok then Stop(End(Failed, n))
        else if |n.rcv| == j.room then Stop(End(Finished, n))
        else Again(n)
  }

  /** Whatever the card sends, a round sends the next bytes of the command or none, keeps what was
      received, stays within the room, and lowers the measure if the loop goes on. */
  lemma StepSafe(j: Job, l: Loop)
    requires l.nulls <= j.maxNulls && |l.rcv| <= j.room
    ensures var x := Step(j, l); var n := if x.Again? then x.loop else x.end.loop;
      && n.sent + n.left == l.sent + l.left && |n.left| <= |l.left|
      && l.rcv <= n.rcv && |n.rcv| <= j.room
      && (x.Again? ==> n.nulls <= j.maxNulls && Measure(j, n) < Measure(j, l))
  {
    hide IsStatus, IsAck, IsComplement, HasRun, RunOf;
  }

  /** The loop, which every card ends. */
  function Run(j: Job, l: Loop): End
    requires l.nulls <= j.maxNulls && |l.rcv| <= j.room
    decreases Measure(j, l)
  {
    StepSafe(j, l);
    match Step(j, l)
    case Again(n) => Run(j, n)
    case Stop(e) => e
  }

  lemma RunUnfolds(j: Job, l: Loop)
    requires l.nulls <= j.maxNulls && |l.rcv| <= j.room
    ensures Step(j, l).Stop? ==> Run(j, l) == Step(j, l).end
    ensures Step(j, l).Again? ==>
      var n := Step(j, l).loop;
      n.nulls <= j.maxNulls && |n.rcv| <= j.room && Measure(j, n) < Measure(j, l) && Run(j, l) == Run(j, n)
  {
    hide Step;
    StepSafe(j, l);
  }

  // ---- any card ----

  /** Against any card, every byte of the command is sent at most once and in order, and no more
      is received than fits. */
  lemma {:induction false} RunSafe(j: Job, l: Loop)
    requires l.nulls <= j.maxNulls && |l.rcv| <= j.room
    ensures var e := Run(j, l);
      && e.loop.sent + e.loop.left == l.sent + l.left && |e.loop.left| <= |l.left|
      && l.rcv <= e.loop.rcv && |e.loop.rcv| <= j.room
    decreases Measure(j, l)
  {
    hide Step;
    StepSafe(j, l);
    var x := Step(j, l);
    if x.Again? {
      RunSafe(j, x.loop);
    }
  }

  // ---- procedure bytes, by number ----

  /** The procedure byte for all that is left, INS or INS with its last bit changed; that for one byte
      is its complement. */
  function Ack(ins: byte, a: bit): byte {
    if a == 0 then ins else if ins % 2 == 0 then ins + 1 else ins - 1
  }

  /** The first status byte, by number */
  predicate IsSw1(b: byte) {
    0x61 <= b <= 0x6F || 0x90 <= b <= 0x9F
  }

  predicate AsksForAll(b: byte, ins: byte) {
    b == Ack(ins, 0) || b == Ack(ins, 1)
  }

  predicate AsksForOne(b: byte, ins: byte) {
    b == 255 - Ack(ins, 0) || b == 255 - Ack(ins, 1)
  }

  lemma ByNumber(b: byte, ins: byte)
    ensures IsStatus(b) <==> b == 0x60 || IsSw1(b)
    ensures IsAck(b, ins) <==> AsksForAll(b, ins)
    ensures IsComplement(b, ins) <==> AsksForOne(b, ins)
  {
  }

  /** What a round does with the procedure byte that comes: after NULL the host waits, unless there
      were too many; a status ends the loop; INS asks for all and its complement for one byte, each with
      either last bit; any other ends the loop as unexpected, and so does it in no other case. */
  lemma ProcedureByte(j: Job, l: Loop)
    requires |l.rcv| <= j.room && Has(j.card, l.pos)
    ensures var b := ByteAt(j.card, l.pos); var x := Step(j, l); var m := l.(pos := l.pos + 1);
      && (b == 0x60 ==>
            var n := m.(nulls := l.nulls + 1); x == if l.nulls < j.maxNulls then Again(n) else Stop(End(Failed, n)))
      && (IsSw1(b) ==> x.Stop? && (x.end.verdict == Finished <==> |l.rcv| < j.room && Has(j.card, l.pos + 1)))
      && (x == Stop(End(Unexpected, m)) <==>
            b != 0x60 && !IsSw1(b) && !AsksForAll(b, j.ins) && !AsksForOne(b, j.ins))
  {
    hide IsStatus, IsAck, IsComplement, AsksForAll, AsksForOne, IsSw1;
    var b := ByteAt(j.card, l.pos);
    ByNumber(b, j.ins);
    OneByte(j.card, l.pos + 1);
    NoStatusIsNull();
  }

  /** What it does when data are asked for: sending, nothing left or a send refused ends the loop as
      failed, and otherwise it goes on; for one byte to receive it needs that byte, and stops when the
      room is filled. */
  lemma DataAskedFor(j: Job, l: Loop)
    requires |l.rcv| < j.room && Has(j.card, l.pos)
    requires var b := ByteAt(j.card, l.pos);
      b != 0x60 && !IsSw1(b) && (AsksForAll(b, j.ins) || AsksForOne(b, j.ins))
    ensures var b := ByteAt(j.card, l.pos); var x := Step(j, l); var m := l.(pos := l.pos + 1);
      if j.sending then
        var n := if AsksForAll(b, j.ins) then |l.left| else 1;
        if l.left == [] || !j.card.accepts(l.sends) then x == Stop(End(Failed, m))
        else x == Again(m.(sends := l.sends + 1, sent := l.sent + l.left[..n], left := l.left[n..]))
      else if !AsksForAll(b, j.ins) then
        if !Has(j.card, l.pos + 1) then x == Stop(End(Failed, m))
        else
          var n := m.(pos := l.pos + 2, rcv := l.rcv + [ByteAt(j.card, l.pos + 1)]);
          x == if |n.rcv| == j.room then Stop(End(Finished, n)) else Again(n)
      else true
  {
    hide IsStatus, IsAck, IsComplement, AsksForAll, AsksForOne, IsSw1, HasRun, RunOf;
    ByNumber(ByteAt(j.card, l.pos), j.ins);
    OneByte(j.card, l.pos + 1);
  }

  lemma NoStatusIsNull()
    ensures !IsSw1(0x60)
  {
  }

  /** A round writes behind the room exactly when SW1 fills it and SW2 comes, or when the card gives
      one more byte into a full buffer. */
  lemma OverrunExactly(j: Job, l: Loop)
    requires |l.rcv| <= j.room && !l.overrun
    ensures var x := Step(j, l); var n := if x.Again? then x.loop else x.end.loop;
      n.overrun <==>
        && Has(j.card, l.pos) && Has(j.card, l.pos + 1) && ByteAt(j.card, l.pos) != 0x60
        && var b := ByteAt(j.card, l.pos);
           if IsSw1(b) then |l.rcv| + 1 == j.room
           else !j.sending && !AsksForAll(b, j.ins) && AsksForOne(b, j.ins) && |l.rcv| == j.room
  {
    hide IsStatus, IsAck, IsComplement, HasRun, RunOf, Has, AsksForAll, AsksForOne, IsSw1;
    OneByte(j.card, l.pos + 1);
    if Has(j.card, l.pos) {
      ByNumber(ByteAt(j.card, l.pos), j.ins);
    }
  }

  /** While sending this is so exactly if the room is for one byte more and a status comes. */
  lemma {:induction false} SendingOverruns(j: Job, l: Loop)
    requires j.sending && l.nulls <= j.maxNulls && |l.rcv| <= j.room && !l.overrun
    ensures var e := Run(j, l);
      e.loop.overrun <==> |l.rcv| + 1 == j.room && e.verdict == Finished
    decreases Measure(j, l)
  {
    hide Step, IsStatus, IsAck, IsComplement, HasRun, RunOf, Has;
    RunUnfolds(j, l);
    SendingStep(j, l);
    var x := Step(j, l);
    if x.Again? {
      SendingOverruns(j, x.loop);
    }
  }

  lemma SendingStep(j: Job, l: Loop)
    requires j.sending && |l.rcv| <= j.room && !l.overrun
    ensures var x := Step(j, l);
      if x.Again? then x.loop.rcv == l.rcv && !x.loop.overrun
      else x.end.loop.overrun <==> |l.rcv| + 1 == j.room && x.end.verdict == Finished
  {
    hide IsStatus, IsAck, IsComplement, HasRun, RunOf, Has;
  }

  // ---- a conforming card ----

  /** What the card does before it finishes: ask for time, or move one byte. */
  datatype Move = Null | One(a: bit)


  /** `k` NULL bytes. */
  function Pause(k: nat): (s: seq<byte>)
    ensures |s| == k
  {
    if k == 0 then [] else [0x60] + Pause(k - 1)
  }

  /** A card that takes `n` more bytes: for each move its procedure byte, then ACK for the rest and
      `late` NULLs, then the status. */
  function TakingStream(ins: byte, n: nat, plan: seq<Move>, a: bit, late: nat, sw: seq<byte>): seq<byte> {
    if plan == [] then (if n == 0 then sw else [Ack(ins, a)] + Pause(late) + sw)
    else if plan[0].Null? then [0x60] + TakingStream(ins, n, plan[1..], a, late, sw)
    else if n == 0 then TakingStream(ins, n, plan[1..], a, late, sw)
    else [255 - Ack(ins, plan[0].a)] + TakingStream(ins, n - 1, plan[1..], a, late, sw)
  }

  /** A card that gives `data`: one byte after each complement, the rest after ACK and then `late`
      NULLs, then the status. */
  function GivingStream(ins: byte, data: seq<byte>, plan: seq<Move>, a: bit, late: nat, sw: seq<byte>): seq<byte> {
    if plan == [] then (if data == [] then sw else [Ack(ins, a)] + (data + Pause(late) + sw))
    else if plan[0].Null? then [0x60] + GivingStream(ins, data, plan[1..], a, late, sw)
    else if data == [] then GivingStream(ins, data, plan[1..], a, late, sw)
    else [255 - Ack(ins, plan[0].a), data[0]] + GivingStream(ins, data[1..], plan[1..], a, late, sw)
  }

  function Nulls(plan: seq<Move>): nat {
    if plan == [] then 0 else (if plan[0].Null? then 1 else 0) + Nulls(plan[1..])
  }

  /** The bytes moved one by one. */
  function Ones(plan: seq<Move>): nat {
    if plan == [] then 0 else (if plan[0].One? then 1 else 0) + Ones(plan[1..])
  }

  /** From `pos` on the card sends exactly `s`, and then nothing. */
  ghost predicate Gives(card: Card, pos: nat, s: seq<byte>) {
    && (forall i | 0 <= i < |s| :: card.byteAt(pos + i) == s[i])
    && (forall i :: i >= pos + |s| ==> !Has(card, i))
  }

  /** Instruction codes 6X and 9X cannot be told from a status and are not allowed. */
  predicate GoodCodes(ins: byte, sw: seq<byte>) {
    !(0x60 <= ins <= 0x6F) && !(0x90 <= ins <= 0x9F) && |sw| == 2 && IsSw1(sw[0])
  }

  lemma GivesTail(card: Card, pos: nat, s: seq<byte>, n: nat)
    requires Gives(card, pos, s) && n <= |s|
    ensures Gives(card, pos + n, s[n..]) && HasRun(card, pos, n) && RunOf(card, pos, n) == s[..n]
  {
    forall i | 0 <= i < |s| - n
      ensures card.byteAt(pos + n + i) == s[n..][i]
    {
      assert card.byteAt(pos + (n + i)) == s[n + i];
    }
    forall i | pos <= i < pos + n
      ensures Has(card, i) && ByteAt(card, i) == s[i - pos]
    {
      assert card.byteAt(pos + (i - pos)) == s[i - pos];
    }
  }

  /** The status ends the loop. */
  lemma StatusEnds(j: Job, l: Loop, sw: seq<byte>)
    requires l.nulls <= j.maxNulls && |l.rcv| + 2 <= j.room && GoodCodes(j.ins, sw) && Gives(j.card, l.pos, sw)
    ensures Run(j, l) == End(Finished, l.(pos := l.pos + 2, rcv := l.rcv + sw))
  {
    assert j.card.byteAt(l.pos + 0) == sw[0];
    GivesTail(j.card, l.pos, sw, 1);
    GivesTail(j.card, l.pos + 1, sw[1..], 1);
    assert l.rcv + [sw[0]] + sw[1..][..1] == l.rcv + sw;
  }

  lemma CodesApart(ins: byte, a: bit, sw: seq<byte>)
    requires GoodCodes(ins, sw)
    ensures var b := Ack(ins, a);
      && b != 0x60 && !IsStatus(b) && IsAck(b, ins)
      && 255 - b != 0x60 && !IsStatus(255 - b) && IsComplement(255 - b, ins) && !IsAck(255 - b, ins)
  {
  }

  /** A NULL byte only makes the host wait. */
  lemma NullWaits(j: Job, l: Loop, s: seq<byte>) returns (n: Loop)
    requires l.nulls + 1 <= j.maxNulls && |l.rcv| <= j.room && s != [] && s[0] == 0x60 && Gives(j.card, l.pos, s)
    ensures n == l.(pos := l.pos + 1, nulls := l.nulls + 1)
    ensures Gives(j.card, n.pos, s[1..]) && Run(j, l) == Run(j, n)
  {
    n := l.(pos := l.pos + 1, nulls := l.nulls + 1);
    assert j.card.byteAt(l.pos + 0) == s[0];
    GivesTail(j.card, l.pos, s, 1);
  }

  /** A procedure byte that makes the host send: all that is left, or one byte. */
  lemma HostSends(j: Job, l: Loop, s: seq<byte>) returns (n: Loop)
    requires j.sending && l.nulls <= j.maxNulls && |l.rcv| <= j.room && l.left != [] && j.card.accepts(l.sends)
    requires s != [] && s[0] != 0x60 && !IsStatus(s[0]) && Gives(j.card, l.pos, s)
    requires IsAck(s[0], j.ins) || IsComplement(s[0], j.ins)
    ensures n == SendSome(j, l.(pos := l.pos + 1), IsAck(s[0], j.ins)).0
    ensures Gives(j.card, n.pos, s[1..]) && Run(j, l) == Run(j, n)
  {
    hide IsStatus, IsAck, IsComplement;
    n := SendSome(j, l.(pos := l.pos + 1), IsAck(s[0], j.ins)).0;
    assert j.card.byteAt(l.pos + 0) == s[0];
    GivesTail(j.card, l.pos, s, 1);
  }

  /** NULLs before the status only delay it. */
  lemma {:induction false} LateStatus(j: Job, l: Loop, k: nat, sw: seq<byte>)
    requires l.nulls + k <= j.maxNulls && |l.rcv| + 2 <= j.room && GoodCodes(j.ins, sw)
      && Gives(j.card, l.pos, Pause(k) + sw)
    ensures Run(j, l) == End(Finished, l.(pos := l.pos + k + 2, nulls := l.nulls + k, rcv := l.rcv + sw))
    decreases k
  {
    hide Run, IsStatus;
    if k == 0 {
      assert Pause(0) + sw == sw;
      StatusEnds(j, l, sw);
    } else {
      assert (Pause(k) + sw)[1..] == Pause(k - 1) + sw;
      var n := NullWaits(j, l, Pause(k) + sw);
      LateStatus(j, n, k - 1, sw);
    }
  }

  /** A conforming card that takes data gets every byte left exactly once, in order, however it
      mixes NULL, ACK and complemented ACK; the status comes back. */
  lemma {:induction false} SendsOnce(j: Job, l: Loop, plan: seq<Move>, a: bit, late: nat, sw: seq<byte>)
    requires j.sending && GoodCodes(j.ins, sw) && (forall n :: j.card.accepts(n))
    requires l.nulls + Nulls(plan) + late <= j.maxNulls && |l.rcv| + 2 <= j.room
    requires Gives(j.card, l.pos, TakingStream(j.ins, |l.left|, plan, a, late, sw))
    ensures var e := Run(j, l);
      && e.verdict == Finished && e.loop.sent == l.sent + l.left && e.loop.left == [] && e.loop.rcv == l.rcv + sw
      && e.loop.overrun == l.overrun
    decreases |plan|, |l.left|
  {
    hide IsStatus, IsAck, IsComplement, Run, Gives, Pause, Ack;
    CodesApart(j.ins, if plan != [] && plan[0].One? then plan[0].a else a, sw);
    var s := TakingStream(j.ins, |l.left|, plan, a, late, sw);
    if plan == [] && l.left == [] {
      assert s == sw && l.sent + l.left == l.sent;
      StatusEnds(j, l, sw);
    } else if plan != [] && plan[0].One? && l.left == [] {
      SendsOnce(j, l, plan[1..], a, late, sw);
    } else if plan == [] {
      assert s[1..] == Pause(late) + sw;
      var n := HostSends(j, l, s);
      assert n.left == [] && n.sent == l.sent + l.left;
      LateStatus(j, n, late, sw);
    } else if plan[0].Null? {
      assert s[1..] == TakingStream(j.ins, |l.left|, plan[1..], a, late, sw);
      var n := NullWaits(j, l, s);
      SendsOnce(j, n, plan[1..], a, late, sw);
    } else {
      var n := HostSends(j, l, s);
      assert s[1..] == TakingStream(j.ins, |n.left|, plan[1..], a, late, sw);
      assert l.sent + l.left[..1] + l.left[1..] == l.sent + l.left;
      SendsOnce(j, n, plan[1..], a, late, sw);
    }
  }

  /** A conforming card that gives data, which with the status fits the room: every byte is stored
      exactly once, in order, with the status after it, if and only if the card gives all of them one
      by one, or else fills the room with no NULL between the data and the status. For on ACK the
      host takes as many bytes as there is room for, whatever they are. */
  lemma {:induction false} ReceivesExactly(j: Job, l: Loop, data: seq<byte>, plan: seq<Move>, a: bit, late: nat,
                                           sw: seq<byte>)
    requires !j.sending && GoodCodes(j.ins, sw)
    requires l.nulls + Nulls(plan) <= j.maxNulls && |l.rcv| + |data| + 2 <= j.room
    requires Gives(j.card, l.pos, GivingStream(j.ins, data, plan, a, late, sw))
    ensures var e := Run(j, l);
      && (e.verdict == Finished && e.loop.rcv == l.rcv + data + sw
          <==> Ones(plan) >= |data| || (late == 0 && |l.rcv| + |data| + 2 == j.room))
      && e.loop.sent == l.sent && e.loop.overrun == l.overrun
    decreases |plan|, |data|
  {
    hide IsStatus, IsAck, IsComplement, Run, Gives, Pause, Ack;
    CodesApart(j.ins, if plan != [] && plan[0].One? then plan[0].a else a, sw);
    var s := GivingStream(j.ins, data, plan, a, late, sw);
    if plan == [] && data == [] {
      assert s == sw && l.rcv + data == l.rcv;
      StatusEnds(j, l, sw);
    } else if plan != [] && plan[0].One? && data == [] {
      ReceivesExactly(j, l, data, plan[1..], a, late, sw);
    } else if plan == [] {
      var rest := data + Pause(late) + sw;
      AckTakesRoom(j, l, a, rest);
      FirstOf(l.rcv, data, late, sw, j.room - |l.rcv|);
    } else if plan[0].Null? {
      assert s[1..] == GivingStream(j.ins, data, plan[1..], a, late, sw);
      var n := NullWaits(j, l, s);
      ReceivesExactly(j, n, data, plan[1..], a, late, sw);
    } else {
      assert s[2..] == GivingStream(j.ins, data[1..], plan[1..], a, late, sw);
      var n := ComplementTakesOne(j, l, s);
      ReceivesExactly(j, n, data[1..], plan[1..], a, late, sw);
      assert l.rcv + [data[0]] + data[1..] + sw == l.rcv + data + sw;
    }
  }

  /** The first `n` bytes of what comes are data and status exactly if nothing is between them. */
  lemma FirstOf(rcv: seq<byte>, data: seq<byte>, late: nat, sw: seq<byte>, n: nat)
    requires |sw| == 2 && sw[0] != 0x60 && n >= |data| + 2
    ensures var rest := data + Pause(late) + sw;
      n <= |rest| ==> (rcv + rest[..n] == rcv + data + sw <==> late == 0 && n == |data| + 2)
  {
    var rest := data + Pause(late) + sw;
    if n <= |rest| {
      if late == 0 && n == |data| + 2 {
        assert rest[..n] == data + sw;
        assert rcv + rest[..n] == rcv + data + sw;
      } else if n == |data| + 2 {
        assert (rcv + rest[..n])[|rcv| + |data|] == 0x60;
        assert (rcv + data + sw)[|rcv| + |data|] == sw[0];
      }
    }
  }

  /** For one: a NULL between the data and the status is taken for SW1, and SW1 for SW2. */
  lemma NullTakenForStatus(j: Job, l: Loop, data: seq<byte>, a: bit, sw: seq<byte>)
    requires !j.sending && GoodCodes(j.ins, sw) && data != []
    requires l.nulls <= j.maxNulls && |l.rcv| + |data| + 2 == j.room
    requires Gives(j.card, l.pos, [Ack(j.ins, a)] + (data + [0x60] + sw))
    ensures var e := Run(j, l);
      e.verdict == Finished && e.loop.rcv == l.rcv + data + [0x60, sw[0]]
  {
    hide IsStatus, IsAck, IsComplement, Run, Ack;
    CodesApart(j.ins, a, sw);
    var rest := data + [0x60] + sw;
    AckTakesRoom(j, l, a, rest);
    assert rest[..|data| + 2] == data + [0x60, sw[0]];
    assert l.rcv + (data + [0x60, sw[0]]) == l.rcv + data + [0x60, sw[0]];
  }

  /** A conforming card that gives one byte less than the room, and then its status, makes the host
      write SW2 behind the room if and only if it gives all of them one by one; on ACK the host takes
      one byte more than there is data and stops. */
  lemma {:induction false} ReceivingOverruns(j: Job, l: Loop, data: seq<byte>, plan: seq<Move>, a: bit, late: nat,
                                             sw: seq<byte>)
    requires !j.sending && GoodCodes(j.ins, sw) && !l.overrun
    requires l.nulls + Nulls(plan) <= j.maxNulls && |l.rcv| + |data| + 1 == j.room
    requires Gives(j.card, l.pos, GivingStream(j.ins, data, plan, a, late, sw))
    ensures var e := Run(j, l); e.verdict == Finished && (e.loop.overrun <==> Ones(plan) >= |data|)
    decreases |plan|, |data|
  {
    hide IsStatus, IsAck, IsComplement, Run, Ack;
    CodesApart(j.ins, if plan != [] && plan[0].One? then plan[0].a else a, sw);
    var s := GivingStream(j.ins, data, plan, a, late, sw);
    if plan == [] {
      if data == [] {
        StatusOverruns(j, l, sw);
      } else {
        AckTakesRoom(j, l, a, data + Pause(late) + sw);
      }
    } else if plan[0].One? && data == [] {
      ReceivingOverruns(j, l, data, plan[1..], a, late, sw);
    } else if plan[0].Null? {
      assert s[1..] == GivingStream(j.ins, data, plan[1..], a, late, sw);
      var n := NullWaits(j, l, s);
      ReceivingOverruns(j, n, data, plan[1..], a, late, sw);
    } else {
      assert s[2..] == GivingStream(j.ins, data[1..], plan[1..], a, late, sw);
      var n := ComplementTakesOne(j, l, s);
      ReceivingOverruns(j, n, data[1..], plan[1..], a, late, sw);
    }
  }

  lemma StatusOverruns(j: Job, l: Loop, sw: seq<byte>)
    requires l.nulls <= j.maxNulls && |l.rcv| + 1 == j.room && GoodCodes(j.ins, sw) && Gives(j.card, l.pos, sw)
    ensures Run(j, l).loop.overrun && Run(j, l).verdict == Finished
  {
    assert j.card.byteAt(l.pos + 0) == sw[0];
    GivesTail(j.card, l.pos, sw, 1);
    GivesTail(j.card, l.pos + 1, sw[1..], 1);
  }

  /** ACK: as many bytes as there is room for are taken in one go, if that many come. */
  lemma AckTakesRoom(j: Job, l: Loop, a: bit, rest: seq<byte>)
    requires !j.sending && l.nulls <= j.maxNulls && |l.rcv| <= j.room
    requires var b := Ack(j.ins, a); b != 0x60 && !IsStatus(b) && IsAck(b, j.ins)
    requires Gives(j.card, l.pos, [Ack(j.ins, a)] + rest)
    ensures var n := j.room - |l.rcv|;
      Run(j, l) == if n <= |rest| then End(Finished, l.(pos := l.pos + 1 + n, rcv := l.rcv + rest[..n]))
                   else End(Failed, l.(pos := l.pos + 1))
  {
    hide IsStatus, Run, Gives, Measure, HasRun, RunOf, RecvSome, Ack, IsAck;
    var s := [Ack(j.ins, a)] + rest;
    var n := j.room - |l.rcv|;
    var m := l.(pos := l.pos + 1);
    FirstByte(j.card, l.pos, s);
    assert s[1..] == rest;
    RoomOrNot(j, m, rest);
    RunUnfolds(j, l);
    assert Step(j, l) ==
      Stop(if n <= |rest| then End(Finished, m.(pos := m.pos + n, rcv := m.rcv + rest[..n])) else End(Failed, m));
  }

  lemma FirstByte(card: Card, pos: nat, s: seq<byte>)
    requires Gives(card, pos, s) && s != []
    ensures Has(card, pos) && card.byteAt(pos) == s[0] && Gives(card, pos + 1, s[1..])
  {
    assert card.byteAt(pos + 0) == s[0];
    GivesTail(card, pos, s, 1);
  }

  lemma RoomOrNot(j: Job, m: Loop, rest: seq<byte>)
    requires Gives(j.card, m.pos, rest) && |m.rcv| <= j.room
    ensures var n := j.room - |m.rcv|;
      RecvSome(j, m, n) ==
        if n <= |rest| then (m.(pos := m.pos + n, rcv := m.rcv + rest[..n]), true) else (m, false)
  {
    hide RunOf;
    var n := j.room - |m.rcv|;
    if n <= |rest| {
      GivesTail(j.card, m.pos, rest, n);
    } else {
      assert !Has(j.card, m.pos + |rest|);
    }
  }

  /** A complemented ACK: one byte comes. */
  lemma ComplementTakesOne(j: Job, l: Loop, s: seq<byte>) returns (n: Loop)
    requires !j.sending && l.nulls <= j.maxNulls && |l.rcv| + 1 < j.room
    requires |s| >= 2 && !IsStatus(s[0]) && !IsAck(s[0], j.ins) && IsComplement(s[0], j.ins)
    requires s[0] != 0x60 && Gives(j.card, l.pos, s)
    ensures n == l.(pos := l.pos + 2, rcv := l.rcv + [s[1]])
    ensures Gives(j.card, n.pos, s[2..]) && Run(j, l) == Run(j, n)
  {
    hide IsStatus, IsAck, IsComplement;
    n := l.(pos := l.pos + 2, rcv := l.rcv + [s[1]]);
    assert j.card.byteAt(l.pos + 0) == s[0];
    GivesTail(j.card, l.pos, s, 1);
    GivesTail(j.card, l.pos + 1, s[1..], 1);
    assert s[1..][..1] == [s[1]] && s[1..][1..] == s[2..];
    var m := l.(pos := l.pos + 1);
    assert RecvSome(j, m, 1).0 == n;
  }

  // ---- the protocol object ----

  /** The device the protocol talks through. */
  class Line {
    const card: Card
    var pos: nat
    var sends: nat
    var sent: seq<byte>

    constructor (card: Card)
      ensures this.card == card && pos == 0 && sends == 0 && sent == []
    {
      this.card := card;
      pos, sends, sent := 0, 0, [];
    }

    method Recv(n: nat) returns (ok: bool, bytes: seq<byte>)
      modifies this`pos
      ensures ok <==> HasRun(card, old(pos), n)
      ensures if ok then pos == old(pos) + n && bytes == RunOf(card, old(pos), n) else pos == old(pos) && bytes == []
    {
      bytes := [];
      var i := 0;
      while i < n
        invariant 0 <= i <= n && |bytes| == i && HasRun(card, pos, i)
        invariant forall k | 0 <= k < i :: bytes[k] == card.byteAt(pos + k)
      {
        if !Has(card, pos + i) {
          return false, [];
        }
        bytes := bytes + [ByteAt(card, pos + i)];
        i := i + 1;
      }
      assert forall k | 0 <= k < n :: bytes[k] == ByteAt(card, pos + k);
      assert bytes == RunOf(card, pos, n);
      pos := pos + n;
      ok := true;
    }

    /** A device that frames by itself: what comes, up to `n` bytes, and at least one if any is wanted. */
    method RecvBlock(n: nat) returns (ok: bool, bytes: seq<byte>)
      modifies this`pos
      ensures ok <==> n == 0 || Has(card, old(pos))
      ensures HasRun(card, old(pos), Available(card, old(pos), n))
      ensures ok ==> bytes == RunOf(card, old(pos), Available(card, old(pos), n)) && pos == old(pos) + |bytes|
      ensures !ok ==> bytes == [] && pos == old(pos)
    {
      bytes := [];
      ghost var from := pos;
      AvailableIsRun(card, from, n);
      while |bytes| < n && Has(card, pos)
        invariant |bytes| <= n && pos == from + |bytes|
        invariant |bytes| + Available(card, pos, n - |bytes|) == Available(card, from, n)
        invariant forall k | 0 <= k < |bytes| :: bytes[k] == card.byteAt(from + k)
      {
        bytes := bytes + [ByteAt(card, pos)];
        pos := pos + 1;
      }
      assert |bytes| == Available(card, from, n);
      assert forall k | 0 <= k < |bytes| :: Has(card, from + k) && bytes[k] == ByteAt(card, from + k);
      assert bytes == RunOf(card, from, |bytes|);
      ok := n == 0 || |bytes| > 0;
    }

    method Send(data: seq<byte>) returns (ok: bool)
      modifies this`sends, this`sent
      ensures ok <==> card.accepts(old(sends))
      ensures if ok then sends == old(sends) + 1 && sent == old(sent) + data
        else sends == old(sends) && sent == old(sent)
    {
      ok := card.accepts(sends);
      if ok {
        sends := sends + 1;
        sent := sent + data;
      }
    }
  }

  class Protocol {
    var state: State
    var maxNulls: nat
    var blockOriented: bool
    const line: Line

    /** `t0_init`; readers that are not serial frame by themselves once told so. */
    constructor (line: Line)
      ensures this.line == line && state == Idle && maxNulls == 800 && !blockOriented
    {
      this.line := line;
      state, maxNulls, blockOriented := Idle, 800, false;
    }

    ghost function JobOf(ins: byte, room: nat): Job
      reads this
    {
      Job(line.card, state == Sending, ins, maxNulls, room)
    }

    ghost function LoopOf(nulls: nat, left: seq<byte>, rcv: seq<byte>, overrun: bool): Loop
      reads line
    {
      Loop(line.pos, line.sends, nulls, left, line.sent, rcv, overrun)
    }

    /** `t0_xcv`; `overrun` says whether the device was made to write behind the room. */
    method Xcv(cmd: seq<byte>, room: nat) returns (rc: int, rcv: seq<byte>, overrun: bool)
      requires blockOriented || |cmd| >= 2
      modifies this`state, line
      ensures blockOriented ==> state == old(state) && !overrun && rc == if rc >= 0 then |rcv| else -1
      ensures blockOriented ==> line.sent == old(line.sent) + if line.card.accepts(old(line.sends)) then cmd else []
      ensures blockOriented ==>
        var n := Available(line.card, old(line.pos), room);
        && (rc >= 0 <==> line.card.accepts(old(line.sends)) && (n > 0 || room == 0))
        && (rc >= 0 ==> HasRun(line.card, old(line.pos), n) && rcv == RunOf(line.card, old(line.pos), n))
      ensures !blockOriented && (|cmd| < 5 || !line.card.accepts(old(line.sends))) ==>
        && rc == -1 && rcv == [] && state == Confused && line.sent == old(line.sent) && line.pos == old(line.pos)
        && !overrun
      ensures !blockOriented && |cmd| >= 5 && line.card.accepts(old(line.sends)) ==>
        var e := Run(old(JobOf(cmd[1], room)),
                     Loop(old(line.pos), old(line.sends) + 1, 0, cmd[5..], old(line.sent) + cmd[..5], [], false));
        && rc == (if e.verdict == Finished then |rcv| else -1) && rcv == e.loop.rcv && overrun == e.loop.overrun
        && line.sent == e.loop.sent && line.pos == e.loop.pos
        && state == if e.verdict == Failed then Confused else old(state)
    {
      hide Run;
      if blockOriented {
        rc, rcv := WholeBlock(cmd, room);
        return rc, rcv, false;
      }
      rc, rcv, overrun := ByteWise(cmd, room);
    }

    /** `t0_send`: all that is left, or one byte; `rest` is left after it. */
    method SendData(left: seq<byte>, all: bool, ghost j: Job, ghost l: Loop) returns (ok: bool, rest: seq<byte>)
      requires l == LoopOf(l.nulls, left, l.rcv, l.overrun) && j.card == line.card
      modifies line
      ensures (LoopOf(l.nulls, rest, l.rcv, l.overrun), ok) == SendSome(j, l, all)
    {
      if left == [] {
        return false, left;
      }
      var n := if all then |left| else 1;
      ok := line.Send(left[..n]);
      rest := if ok then left[n..] else left;
    }

    /** `t0_recv`: the device writes `n` bytes behind those received; they count if there is room. */
    method RecvData(rcv: seq<byte>, overrun: bool, n: nat, room: nat, ghost j: Job, ghost l: Loop)
      returns (ok: bool, now: seq<byte>, over: bool)
      requires l == LoopOf(l.nulls, l.left, rcv, overrun) && j.card == line.card && j.room == room
      modifies line`pos
      ensures (LoopOf(l.nulls, l.left, now, over), ok) == RecvSome(j, l, n)
    {
      hide HasRun, RunOf;
      var more;
      ok, more := line.Recv(n);
      now, over := rcv, overrun;
      if ok {
        over := overrun || |rcv| + n > room;
        if |rcv| + n <= room {
          now := rcv + more;
        }
      }
    }

    /** The loop over procedure bytes. */
    method ByteWise(cmd: seq<byte>, room: nat) returns (rc: int, rcv: seq<byte>, overrun: bool)
      requires |cmd| >= 2
      modifies this`state, line
      ensures |cmd| < 5 || !line.card.accepts(old(line.sends)) ==>
        && rc == -1 && rcv == [] && state == Confused && line.sent == old(line.sent) && line.pos == old(line.pos)
        && !overrun
      ensures |cmd| >= 5 && line.card.accepts(old(line.sends)) ==>
        var e := Run(old(JobOf(cmd[1], room)),
                     Loop(old(line.pos), old(line.sends) + 1, 0, cmd[5..], old(line.sent) + cmd[..5], [], false));
        && rc == (if e.verdict == Finished then |rcv| else -1) && rcv == e.loop.rcv && overrun == e.loop.overrun
        && line.sent == e.loop.sent && line.pos == e.loop.pos
        && state == if e.verdict == Failed then Confused else old(state)
    {
      hide IsStatus, IsAck, IsComplement, HasRun, RunOf, Run, Has, Measure, SendSome, RecvSome;
      rcv, overrun := [], false;
      var ins := cmd[1];
      if |cmd| < 5 {
        state := Confused;
        return -1, [], false;
      }
      var ok := line.Send(cmd[..5]);
      if !ok {
        state := Confused;
        return -1, [], false;
      }
      var left := cmd[5..];
      var nulls := 0;
      ghost var j := JobOf(ins, room);
      ghost var end := Run(j, LoopOf(0, left, [], false));
      while true
        invariant nulls <= maxNulls && |rcv| <= room && j == JobOf(ins, room)
        invariant end == Run(j, LoopOf(nulls, left, rcv, overrun)) && state == old(state)
        decreases Measure(j, LoopOf(nulls, left, rcv, overrun))
      {
        ghost var l := LoopOf(nulls, left, rcv, overrun);
        RunUnfolds(j, l);
        OneByte(line.card, line.pos);
        var one;
        ok, one := line.Recv(1);
        if !ok {
          break;
        }
        var b := one[0];
        ghost var m := LoopOf(nulls, left, rcv, overrun);
        assert m == l.(pos := l.pos + 1);
        if b == 0x60 {
          nulls := nulls + 1;
          if nulls > maxNulls {
            break;
          }
        } else if IsStatus(b) {
          if |rcv| + 1 > room {
            break;
          }
          rcv := rcv + [b];
          ok, rcv, overrun := RecvData(rcv, overrun, 1, room, j, m.(rcv := m.rcv + [b]));
          if !ok {
            break;
          }
          return |rcv|, rcv, overrun;
        } else if !IsAck(b, ins) && !IsComplement(b, ins) {
          return -1, rcv, overrun;
        } else if state == Sending {
          ok, left := SendData(left, IsAck(b, ins), j, m);
          if !ok {
            break;
          }
        } else {
          ok, rcv, overrun := RecvData(rcv, overrun, if IsAck(b, ins) then room - |rcv| else 1, room, j, m);
          if !ok {
            break;
          }
          if |rcv| == room {
            return |rcv|, rcv, overrun;
          }
        }
        assert Step(j, l) == Again(LoopOf(nulls, left, rcv, overrun));
      }
      state := Confused;
      rc := -1;
    }

    /** The case of a reader that frames by itself. */
    method WholeBlock(cmd: seq<byte>, room: nat) returns (rc: int, rcv: seq<byte>)
      modifies line
      ensures line.sent == old(line.sent) + if line.card.accepts(old(line.sends)) then cmd else []
      ensures var n := Available(line.card, old(line.pos), room);
        && (rc >= 0 <==> line.card.accepts(old(line.sends)) && (n > 0 || room == 0))
        && (rc >= 0 ==> HasRun(line.card, old(line.pos), n) && rcv == RunOf(line.card, old(line.pos), n) && rc == |rcv|)
        && (rc < 0 ==> rc == -1)
    {
      var ok := line.Send(cmd);
      if !ok {
        return -1, [];
      }
      ok, rcv := line.RecvBlock(room);
      rc := if ok then |rcv| else -1;
    }
  }
}
