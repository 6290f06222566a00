/** How often the host tries before it gives up. */
module HostRetries {
  import opened Bytes
  import opened SerialFrame
  import opened SerialReceive
  import opened HostDriver
  import opened SerialCalls

  /** Where the attempt after number `n` begins. */
  function NextTry(n: nat): Pc {
    if n < 9 then Hello(n + 1) else GaveUp
  }

  /** `n` empty resync requests. */
  function Requests(n: nat): seq<byte> {
    if n == 0 then [] else FrameOf(7, []) + Requests(n - 1)
  }

  /** An attempt on a silent line: two requests, and then the next one. */
  lemma SilentAttempt(n: nat, sent: seq<byte>, es: seq<Event>, challenges: Challenges) returns (t: HostState)
    requires Challenging(challenges) && n < 10
    ensures t.pc == NextTry(n) && t.items == [] && t.accepts == [] && t.sent == sent + Requests(2)
    ensures HostRun(HostState(Hello(n), [], [], sent, es), challenges) == HostRun(t, challenges)
  {
    hide Message, FrameOf, HostRun, RecvMessage;
    FrameIsMessage(7, []);
    NothingOnLine();
    t := HostState(Hello(n), [], [], sent, es);
    RunStep(t, challenges);
    t := HostStep(t, challenges(n));
    RunStep(t, challenges);
    t := HostStep(t, challenges(n));
    RunStep(t, challenges);
    t := HostStep(t, challenges(n));
    RunStep(t, challenges);
    t := HostStep(t, challenges(n));
    var f := FrameOf(7, []);
    assert Requests(2) == f + f by {
      assert f + [] == f;
    }
    assert sent + f + f == sent + (f + f);
  }

  lemma NothingOnLine()
    ensures RecvMessage([]) == NoAnswer([]) && CommRecv([], 1) == ([], [])
  {
  }

  lemma {:induction false} SilentAttempts(n: nat, sent: seq<byte>, es: seq<Event>, challenges: Challenges)
    requires Challenging(challenges) && n < 10
    ensures var t := HostRun(HostState(Hello(n), [], [], sent, es), challenges);
      t.pc == GaveUp && t.sent == sent + Requests(2 * (10 - n))
    decreases 10 - n
  {
    hide HostRun, FrameOf;
    var t := SilentAttempt(n, sent, es, challenges);
    if n < 9 {
      SilentAttempts(n + 1, t.sent, t.es, challenges);
      RequestsAdd(2, 2 * (9 - n));
      assert sent + Requests(2) + Requests(2 * (9 - n)) == sent + (Requests(2) + Requests(2 * (9 - n)));
    } else {
      RunEnds(t, challenges);
    }
  }

  lemma {:induction false} RequestsAdd(m: nat, n: nat)
    ensures Requests(m) + Requests(n) == Requests(m + n)
  {
    hide FrameOf;
    if m > 0 {
      RequestsAdd(m - 1, n);
      assert FrameOf(7, []) + Requests(m - 1) + Requests(n) == FrameOf(7, []) + (Requests(m - 1) + Requests(n));
    }
  }

  /** On a silent line `resync()` gives up after ten attempts, with two empty requests sent in each. */
  lemma GivesUpAfterTen(challenges: Challenges)
    requires Challenging(challenges)
    ensures var t := HostRun(Started([], []), challenges); t.pc == GaveUp && t.sent == Requests(20)
  {
    hide HostRun, FrameOf;
    SilentAttempts(0, [], [], challenges);
    assert [] + Requests(20) == Requests(20);
  }

  /** A send that fails ends the attempt at once, with nothing sent or read, whichever of the four it
      is. */
  lemma UnsentRequest(s: HostState, challenges: Challenges)
    requires Challenging(challenges) && s.accepts != [] && !s.accepts[0]
    requires (s.pc.Hello? || s.pc.Again? || s.pc.Challenge? || s.pc.Finishing?) && s.pc.n < 10
    ensures var t := s.(pc := NextTry(s.pc.n), accepts := s.accepts[1..], es := s.es + [SendDone(false)]);
      HostRun(s, challenges) == HostRun(t, challenges)
  {
    hide Message, HostRun;
    RunStep(s, challenges);
    assert s.sent + [] == s.sent;
  }

  /** An answer is the right one only as the very frame: the empty echo, the echo of the challenge, or
      Ok; anything else, or nothing, ends the attempt. */
  lemma AnswerDecides(s: HostState, challenge: seq<byte>)
    requires |challenge| == 14 && (s.pc.AwaitEmpty? || s.pc.AwaitEcho? || s.pc.AwaitOk?)
    ensures var n, r := s.pc.n, RecvMessage(s.items);
      var due :=
        if s.pc.AwaitEmpty? then FrameOf(7, []) else if s.pc.AwaitEcho? then FrameOf(7, challenge) else FrameOf(6, []);
      HostStep(s, challenge).pc ==
        if r.Answered? && r.msg == due
        then (if s.pc.AwaitEmpty? then Challenge(n) else if s.pc.AwaitEcho? then Finishing(n) else Synced(n))
        else NextTry(n)
  {
    hide FrameOf, Message, RecvMessage, IsAnswer;
    FrameIsMessage(7, []);
    FrameIsMessage(7, challenge);
    FrameIsMessage(6, []);
    var mask: byte := if s.pc.AwaitOk? then ANS_OK else ANS_RESYNC;
    var payload := if s.pc.AwaitEcho? then challenge else [];
    FrameIsAnswer(mask, payload);
    var r := RecvMessage(s.items);
    if r.Answered? && IsAnswer(Got(r.msg), mask, payload) {
      AnswerIsFrame(s.items, mask, payload);
    }
  }

  lemma FrameIsAnswer(mask: byte, payload: seq<byte>)
    requires mask in {ANS_OK, ANS_RESYNC} && |payload| <= 14
    ensures IsAnswer(Got(Message(mask, payload)), mask, payload) && !IsAnswer(NoMessage, mask, payload)
  {
    var m := Message(mask, payload);
    assert m[1..|m| - 1] == payload;
  }

  /** Reading an ATR needs an answer of type 2 with the length, and for each part one more: any other
      answer, or none, fails it. */
  lemma AtrAnswerDecides(items: seq<Item>, rem: nat, got: seq<byte>)
    requires rem > 0
    ensures var r := RecvMessage(items);
      var good := r.Answered? && r.msg[0] / 32 == 2;
      && (!good ==> ReadAtr(items) == Failed(r.rest) && ReadParts(items, rem, got) == Failed(r.rest))
      && (good ==> ReadAtr(items) == ReadParts(r.rest, r.msg[1], []))
  {
    hide RecvMessage;
  }

  /** A reset that fails, because the request could not be sent or the ATR not be read, is followed by a
      resync, and by another try exactly if that succeeded and it was not the third. */
  lemma FailedTry(items: seq<Item>, accepts: seq<bool>, challenges: nat -> Challenges, tr: nat)
    requires EachChallenging(challenges) && tr < 3
    requires (accepts != [] && !accepts[0]) || ReadAtr(items).Failed?
    ensures Challenging(challenges(tr))
    ensures var unsent := accepts != [] && !accepts[0];
      var left := if unsent then items else ReadAtr(items).rest;
      var h := HostRun(Started(left, if accepts == [] then [] else accepts[1..]), challenges(tr));
      var first := (if unsent then [] else FrameOf(1, [1])) + h.sent;
      var e := ResetRun(items, accepts, challenges, tr);
      if h.pc.Synced? then
        var more := ResetRun(h.items, h.accepts, challenges, tr + 1);
        e.outcome == more.outcome && e.sent == first + more.sent && e.items == more.items
      else e.outcome.Undelivered? && e.sent == first && e.items == h.items
  {
    hide Message, FrameOf, ReadAtr, HostRun, ResetRun;
    FrameIsMessage(1, [1]);
    ResetUnfolds(items, accepts, challenges, tr);
  }

  /** One that does not fail ends the reset: with the ATR, or with an overrun. */
  lemma TryEnds(items: seq<Item>, challenges: nat -> Challenges, tr: nat)
    requires EachChallenging(challenges) && tr < 3 && !ReadAtr(items).Failed?
    ensures var a := ReadAtr(items); var e := ResetRun(items, [], challenges, tr);
      && e.sent == FrameOf(1, [1]) && e.items == a.rest
      && e.outcome == if a.Complete? then Delivered(a.atr) else Overran
  {
    hide Message, FrameOf, ReadAtr, HostRun, ResetRun;
    FrameIsMessage(1, [1]);
    ResetUnfolds(items, [], challenges, tr);
  }

  /** Parts that go beyond the length announced, however the device cuts them. */
  lemma OverrunReported(n: byte, parts: seq<seq<byte>>, challenges: nat -> Challenges)
    requires EachChallenging(challenges) && (forall p | p in parts :: |p| <= 14) && |Concat(parts)| >= n
    ensures var e := ResetRun(Items(FrameOf(2, [n]) + PartFrames(parts)), [], challenges, 0);
      if Reaches(parts, n) then e.outcome.Delivered? && |e.outcome.atr| == n && e.outcome.atr <= Concat(parts)
      else e.outcome.Overran?
  {
    hide Message, FrameOf, RecvMessage, PartFrames, Reaches, HostRun, ResetRun;
    FrameIsMessage(2, [n]);
    var m := Message(ANS_CARD_PRESENT, [n]);
    var later := Items(PartFrames(parts));
    ItemsConcat(m, PartFrames(parts));
    AnswerRoundTrip(ANS_CARD_PRESENT, [n], later);
    MessageVerifies(ANS_CARD_PRESENT, [n]);
    assert m[1] == m[1..|m| - 1][0];
    OverrunExactly(parts, n, [], []);
    assert later + [] == later && [] + Concat(parts) == Concat(parts);
    TryEnds(Items(m + PartFrames(parts)), challenges, 0);
  }

  /** A reset is tried three times: the try after that is none, and the one before makes a request. */
  lemma ThreeResets(items: seq<Item>, challenges: nat -> Challenges)
    requires EachChallenging(challenges)
    ensures ResetRun(items, [], challenges, 3) == ResetEnd(Undelivered, [], items, [])
    ensures FrameOf(1, [1]) <= ResetRun(items, [], challenges, 2).sent
  {
    hide Message, FrameOf, ReadAtr, HostRun;
    FrameIsMessage(1, [1]);
  }
}
