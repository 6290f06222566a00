/** Answers to reset put together as section 8.2 of ISO/IEC 7816-3:2006 lays them out, and what the
    walks of Atr make of them. */
module AtrFormat {
  import opened Bytes
  import opened Atr

  /** The interface bytes TA, TB and TC of a group, each there or not. */
  datatype Group = Group(ta: seq<byte>, tb: seq<byte>, tc: seq<byte>)

  /** A TD byte's protocol, and the group it announces. */
  datatype Offer = Offer(proto: nat, group: Group)

  predicate Sized(g: Group) {
    |g.ta| <= 1 && |g.tb| <= 1 && |g.tc| <= 1
  }

  predicate Good(g: Group, later: seq<Offer>) {
    Sized(g) && forall o | o in later :: Sized(o.group) && o.proto < 16
  }

  function BytesOf(g: Group): seq<byte> {
    g.ta + g.tb + g.tc
  }

  /** The upper half of T0 or a TD byte: bit 5 for TA, 6 for TB, 7 for TC, 8 for TD. */
  function Announced(g: Group, more: bool): (k: nat)
    requires Sized(g)
    ensures k % 16 == 0 && k < 256
  {
    16 * |g.ta| + 32 * |g.tb| + 64 * |g.tc| + if more then 128 else 0
  }

  /** A group, and each further one after its TD byte. */
  function Groups(g: Group, later: seq<Offer>): seq<byte>
    requires Good(g, later)
    decreases |later|
  {
    BytesOf(g) +
    if later == [] then []
    else [Announced(later[0].group, |later| > 1) + later[0].proto] + Groups(later[0].group, later[1..])
  }

  /** The answer; `check` is the check byte, if there is one. */
  function Laid(ts: byte, g: Group, later: seq<Offer>, historical: seq<byte>, check: seq<byte>): (a: seq<byte>)
    requires Good(g, later) && |historical| < 16
    ensures |a| >= 2 && a[1] % 16 == |historical| && Body(a) == 2 + |Groups(g, later)| + |check|
  {
    var a := [ts, Announced(g, later != []) + |historical|] + Groups(g, later) + historical + check;
    assert a[1] % 16 == |historical|;
    a
  }

  function LastGroup(g: Group, later: seq<Offer>): Group {
    if later == [] then g else later[|later| - 1].group
  }

  // ---- one group ----

  predicate Announces(c: byte, g: Group, more: bool)
    requires Sized(g)
  {
    c - c % 16 == Announced(g, more)
  }

  lemma AnnouncedBits(c: byte, g: Group, more: bool)
    requires Sized(g) && Announces(c, g, more)
    ensures (Has(c, 16) <==> |g.ta| == 1) && (Has(c, 32) <==> |g.tb| == 1) && (Has(c, 64) <==> |g.tc| == 1)
    ensures (More(c) <==> more) && Marks(c) == |BytesOf(g)| + if more then 1 else 0
  {
    hide Marks;
    MarksByBit(c);
    var n := |g.ta| + 2 * |g.tb| + 4 * |g.tc| + if more then 8 else 0;
    assert c == 16 * n + c % 16;
    assert c / 16 == n && c / 32 == n / 2 && c / 64 == n / 4;
  }

  /** An interface byte, or what stands for none in group `i`: -1, but 0 in the fourth. */
  function Value(b: seq<byte>, i: nat): int {
    if |b| == 1 then b[0] else if i < 3 then -1 else 0
  }

  ghost predicate FieldsAre(a: seq<byte>, t: Td, g: Group, i: nat) {
    && t.at + Marks(t.c) <= |a|
    && Field(a, t, 16, i) == Value(g.ta, i)
    && Field(a, t, 32, i) == Value(g.tb, i)
    && Field(a, t, 64, i) == Value(g.tc, i)
  }

  lemma GroupFields(a: seq<byte>, t: Td, g: Group, more: bool, i: nat)
    requires Sized(g) && Announces(t.c, g, more) && t.at + Marks(t.c) <= |a|
    requires t.at + |BytesOf(g)| <= |a| && a[t.at..t.at + |BytesOf(g)|] == BytesOf(g)
    ensures FieldsAre(a, t, g, i)
  {
    hide Marks, Has;
    AnnouncedBits(t.c, g, more);
    var b := BytesOf(g);
    forall j | 0 <= j < |b|
      ensures a[t.at + j] == b[j]
    {
      assert a[t.at..t.at + |b|][j] == a[t.at + j];
    }
    assert |g.ta| == 1 ==> b[0] == g.ta[0];
    assert |g.tb| == 1 ==> b[|g.ta|] == g.tb[0];
    assert |g.tc| == 1 ==> b[|g.ta| + |g.tb|] == g.tc[0];
  }

  // ---- the walks ----

  /** The TD bytes name the protocols, and each has its group's interface bytes behind it. */
  ghost predicate Describes(a: seq<byte>, tds: seq<Td>, g: Group, later: seq<Offer>, i: nat)
    decreases |later|
  {
    && |tds| == |later| + 1 && FieldsAre(a, tds[0], g, i)
    && (later != [] ==> tds[1].c % 16 == later[0].proto && Describes(a, tds[1..], later[0].group, later[1..], i + 1))
  }

  predicate StandsAt(a: seq<byte>, n: nat, s: seq<byte>) {
    n + |s| <= |a| && a[n..n + |s|] == s
  }

  lemma StandApart(a: seq<byte>, n: nat, s: seq<byte>, t: seq<byte>)
    requires StandsAt(a, n, s + t)
    ensures StandsAt(a, n, s) && StandsAt(a, n + |s|, t)
  {
    assert (s + t)[..|s|] == s && (s + t)[|s|..] == t;
    assert a[n..n + |s|] == a[n..n + |s + t|][..|s|];
    assert a[n + |s|..n + |s + t|] == a[n..n + |s + t|][|s|..];
  }

  lemma StandsWithin(a: seq<byte>, n: nat, s: seq<byte>)
    requires StandsAt(a, n, s)
    ensures n + |s| <= |a|
  {
  }

  lemma StandsFirst(a: seq<byte>, n: nat, s: seq<byte>)
    requires StandsAt(a, n, s) && s != []
    ensures n < |a| && a[n] == s[0]
  {
    assert a[n..n + |s|][0] == a[n];
  }

  lemma TdByte(o: Offer, more: bool)
    requires Sized(o.group) && o.proto < 16
    ensures var c := Announced(o.group, more) + o.proto;
      c < 256 && c % 16 == o.proto && Announces(c, o.group, more)
  {
  }

  lemma GroupsUnfold(g: Group, later: seq<Offer>)
    requires Good(g, later) && later != []
    ensures Good(later[0].group, later[1..])
    ensures var td: seq<byte> := [Announced(later[0].group, |later| > 1) + later[0].proto];
      Groups(g, later) == BytesOf(g) + (td + Groups(later[0].group, later[1..]))
  {
    hide Announced, BytesOf, Sized;
  }

  /** The next TD byte and what it announces. */
  lemma NextOffer(a: seq<byte>, n: nat, g: Group, later: seq<Offer>)
    requires Good(g, later) && later != [] && 2 <= n && StandsAt(a, n, Groups(g, later))
    ensures var m := n + |BytesOf(g)| + 1;
      && m <= |a| && a[m - 1] % 16 == later[0].proto
      && Good(later[0].group, later[1..]) && Announces(a[m - 1], later[0].group, later[1..] != [])
      && n + |Groups(g, later)| == m + |Groups(later[0].group, later[1..])|
      && StandsAt(a, m, Groups(later[0].group, later[1..]))
  {
    hide Announces, Announced, BytesOf, StandsAt, Sized, Groups;
    assert later[0] in later;
    assert forall o | o in later[1..] :: o in later;
    TdByte(later[0], |later| > 1);
    var td: seq<byte> := [Announced(later[0].group, |later| > 1) + later[0].proto];
    var rest := Groups(later[0].group, later[1..]);
    GroupsUnfold(g, later);
    StandApart(a, n, BytesOf(g), td + rest);
    var k := n + |BytesOf(g)|;
    StandApart(a, k, td, rest);
    StandsFirst(a, k, td);
    StandsWithin(a, k + 1, rest);
  }

  lemma OwnBytes(a: seq<byte>, n: nat, g: Group, later: seq<Offer>)
    requires Good(g, later) && StandsAt(a, n, Groups(g, later))
    ensures StandsAt(a, n, BytesOf(g)) && (later == [] ==> Groups(g, later) == BytesOf(g))
    ensures |Groups(g, later)| >= |BytesOf(g)|
  {
    var rest := Groups(g, later)[|BytesOf(g)|..];
    assert Groups(g, later) == BytesOf(g) + rest;
    StandApart(a, n, BytesOf(g), rest);
  }

  lemma {:induction false} ChainDescribes(a: seq<byte>, n: nat, g: Group, later: seq<Offer>, len: int, i: nat)
    requires Good(g, later) && 2 <= n && n + |Groups(g, later)| <= len <= |a|
    requires Announces(a[n - 1], g, later != []) && StandsAt(a, n, Groups(g, later))
    requires BytesOf(LastGroup(g, later)) != [] || n + |Groups(g, later)| < len
    ensures Describes(a, Chain(a, n, len), g, later, i)
    decreases |later|
  {
    hide Marks, More, FieldsAre, Announces, Groups, StandsAt, BytesOf, Chain;
    var c := a[n - 1];
    AnnouncedBits(c, g, later != []);
    OwnBytes(a, n, g, later);
    ChainStep(a, [], n, len);
    assert [] + Chain(a, n, len) == Chain(a, n, len);
    if later != [] {
      var m := n + |BytesOf(g)| + 1;
      NextOffer(a, n, g, later);
      OwnBytes(a, m, later[0].group, later[1..]);
      ChainDescribes(a, m, later[0].group, later[1..], len, i + 1);
      assert BytesOf(later[0].group) == [] && later[1..] == [] ==> m < len;
      GoesOn(a, m, later[0].group, later[1..], len);
      assert Chain(a, n, len) == [Td(n, c)] + Chain(a, m, len);
    }
    StandsHere(a, n, g);
    GroupFields(a, Td(n, c), g, later != [], i);
  }

  lemma StandsHere(a: seq<byte>, n: nat, g: Group)
    requires StandsAt(a, n, BytesOf(g))
    ensures n + |BytesOf(g)| <= |a| && a[n..n + |BytesOf(g)|] == BytesOf(g)
  {
  }

  /** There is something behind the TD byte. */
  lemma GoesOn(a: seq<byte>, m: nat, g: Group, later: seq<Offer>, len: int)
    requires Good(g, later) && m + |Groups(g, later)| <= len
    requires BytesOf(LastGroup(g, later)) != [] || m + |Groups(g, later)| < len
    ensures m < len
  {
  }

  /** The completeness check ends behind the groups, with the last protocol. */
  lemma {:induction false} ScanReads(a: seq<byte>, n: nat, g: Group, later: seq<Offer>)
    requires Good(g, later) && 2 <= n && StandsAt(a, n, Groups(g, later))
    requires Announces(a[n - 1], g, later != [])
    ensures Scan(a, n) == Ends(n + |Groups(g, later)|,
      if later != [] then later[|later| - 1].proto else if n > 2 then a[n - 1] % 16 else 0)
    decreases |later|
  {
    hide Marks, More, Announces, Scan, Groups, StandsAt, BytesOf;
    StandsWithin(a, n, Groups(g, later));
    AnnouncedBits(a[n - 1], g, later != []);
    ScanStep(a, n);
    OwnBytes(a, n, g, later);
    if later != [] {
      NextOffer(a, n, g, later);
      ScanReads(a, n + |BytesOf(g)| + 1, later[0].group, later[1..]);
    }
  }

  lemma LaidOut(ts: byte, g: Group, later: seq<Offer>, historical: seq<byte>, check: seq<byte>)
    requires Good(g, later) && |historical| < 16
    ensures var a := Laid(ts, g, later, historical, check);
      && Announces(a[1], g, later != []) && StandsAt(a, 2, Groups(g, later))
      && 2 + |Groups(g, later)| <= Body(a) <= |a|
  {
    var a := Laid(ts, g, later, historical, check);
    assert a[1] - a[1] % 16 == Announced(g, later != []);
  }

  /** The protocols named. */
  function Protos(later: seq<Offer>): set<nat> {
    set o | o in later :: o.proto
  }

  lemma {:induction false} DescribedNames(a: seq<byte>, tds: seq<Td>, g: Group, later: seq<Offer>, i: nat)
    requires Describes(a, tds, g, later, i)
    ensures Named(Tail(tds)) == Protos(later) && First(tds) == if later == [] then 0 else later[0].proto
    decreases |later|
  {
    hide FieldsAre;
    if later != [] {
      DescribedNames(a, tds[1..], later[0].group, later[1..], i + 1);
      assert Tail(tds) == [tds[1]] + Tail(tds[1..]) && later == [later[0]] + later[1..];
      assert Named(Tail(tds)) == {tds[1].c % 16} + Named(Tail(tds[1..]));
      assert Protos(later) == {later[0].proto} + Protos(later[1..]);
    }
  }

  /** Selection offers exactly the protocols named, T=0 if none is, and prefers the first; and the
      parser finds each interface byte in its place. Only a last group without interface bytes and
      without a check byte after it is not seen. */
  lemma ReadBack(ts: byte, g: Group, later: seq<Offer>, historical: seq<byte>, check: seq<byte>)
    requires Good(g, later) && |historical| < 16 && (BytesOf(LastGroup(g, later)) != [] || check != [] || later == [])
    ensures var a := Laid(ts, g, later, historical, check);
      var tds := Chain(a, 2, Body(a));
      && Offered(tds) == (if later == [] then {0} else Protos(later))
      && First(tds) == (if later == [] then 0 else later[0].proto)
      && Describes(a, tds, g, later, 0)
  {
    hide FieldsAre, Announces;
    var a := Laid(ts, g, later, historical, check);
    LaidOut(ts, g, later, historical, check);
    var tds := Chain(a, 2, Body(a));
    if later == [] && BytesOf(g) == [] {
      NothingAnnounced(a, g);
    } else {
      ChainDescribes(a, 2, g, later, Body(a), 0);
    }
    DescribedNames(a, tds, g, later, 0);
  }

  lemma NothingAnnounced(a: seq<byte>, g: Group)
    requires |a| >= 2 && Sized(g) && BytesOf(g) == [] && Announces(a[1], g, false)
    ensures Describes(a, Chain(a, 2, Body(a)), g, [], 0)
  {
    hide Marks, More, FieldsAre, Announces;
    AnnouncedBits(a[1], g, false);
    GroupFields(a, Td(2, a[1]), g, false, 0);
  }

  /** The reader takes such an answer for complete at its very end if and only if there is a check byte
      exactly where the last TD byte names another protocol than T=0. */
  lemma CompleteAtEnd(ts: byte, g: Group, later: seq<Offer>, historical: seq<byte>, check: seq<byte>)
    requires Good(g, later) && |historical| < 16 && |check| <= 1
    ensures var a := Laid(ts, g, later, historical, check);
      AsRead(a) <==> (check != [] <==> later != [] && later[|later| - 1].proto != 0)
  {
    hide Announces;
    LaidOut(ts, g, later, historical, check);
    ScanReads(Laid(ts, g, later, historical, check), 2, g, later);
  }
}
