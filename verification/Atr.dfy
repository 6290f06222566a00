/** The walks over an answer to reset: the byte-by-byte reader and the completeness check
    (reader.c), the parser (atr.c) and the walk inlined in protocol selection (protocol.c). */
module Atr {
  import opened Bytes

  // ---- counting bits (utils.c) ----

  function Ones(n: nat): nat {
    if n == 0 then 0 else n % 2 + Ones(n / 2)
  }

  /** Row of the table of set bits per nibble. */
  function NibbleCount(n: nat): nat
    requires n < 16
  {
    [0, 1, 1, 2, 1, 2, 2, 3, 1, 2, 2, 3, 2, 3, 3, 4][n]
  }

  /** The table is right: it counts the bits of a nibble. */
  lemma OnesByNibble(n: nat)
    ensures Ones(n) == NibbleCount(n % 16) + Ones(n / 16)
  {
    hide NibbleCount;
    var n1, n2, n3 := n / 2, n / 2 / 2, n / 2 / 2 / 2;
    Halves(n);
    assert Ones(n) == n % 2 + Ones(n1);
    assert Ones(n1) == n1 % 2 + Ones(n2);
    assert Ones(n2) == n2 % 2 + Ones(n3);
    assert Ones(n3) == n3 % 2 + Ones(n / 16);
    NibbleTable(n % 2, n1 % 2, n2 % 2, n3 % 2);
  }

  lemma Halves(n: nat)
    ensures n / 2 / 2 / 2 / 2 == n / 16
    ensures n % 16 == n % 2 + 2 * (n / 2 % 2) + 4 * (n / 2 / 2 % 2) + 8 * (n / 2 / 2 / 2 % 2)
  {
  }

  lemma NibbleTable(a: bit, b: bit, c: bit, d: bit)
    ensures NibbleCount(a + 2 * b + 4 * c + 8 * d) == a + b + c + d
  {
  }

  /** `ifd_count_bits` */
  method CountBits(word: nat) returns (num: nat)
    ensures num == Ones(word)
  {
    var w := word;
    num := 0;
    while w != 0
      invariant num + Ones(w) == Ones(word)
    {
      OnesByNibble(w);
      num := num + NibbleCount(w % 16);
      w := w / 16;
    }
  }

  /** How many interface bytes `c` (T0 or a TD byte) announces, a next TD byte included. */
  function Marks(c: byte): (k: nat)
    ensures k <= 4 && (More(c) ==> k >= 1)
  {
    OnesByNibble(c / 16);
    Ones(c / 16)
  }

  /** Whether `c` announces another TD byte. */
  predicate More(c: byte) {
    c >= 128
  }

  /** `ifd_count_bits(c & 0xF0)` */
  method CountMarks(c: byte) returns (k: nat)
    ensures k == Marks(c)
  {
    k := CountBits(c / 16 * 16);
    OnesByNibble(c / 16 * 16);
    assert c / 16 * 16 / 16 == c / 16;
  }

  // ---- completeness ----

  /** Where the interface bytes end, and the protocol of the last TD byte (0 without one); none when
      the walk runs past `a`. `j` is the position after T0 or a TD byte. */
  datatype Walk = Short | Ends(at: nat, proto: nat)

  function Scan(a: seq<byte>, j: nat): (w: Walk)
    requires j >= 2
    ensures w.Ends? ==> w.at >= j && w.proto < 16
    decreases |a| + 5 - j
  {
    if j > |a| then Short
    else
      var c := a[j - 1];
      if More(c) then Scan(a, j + Marks(c))
      else Ends(j + Marks(c), if j > 2 then c % 16 else 0)
  }

  lemma ScanStep(a: seq<byte>, j: nat)
    requires 2 <= j <= |a|
    ensures More(a[j - 1]) ==> Scan(a, j) == Scan(a, j + Marks(a[j - 1]))
    ensures !More(a[j - 1]) ==> Scan(a, j) == Ends(j + Marks(a[j - 1]), if j > 2 then a[j - 1] % 16 else 0)
    ensures Scan(a, j).Ends? ==> Scan(a, j).at >= j + Marks(a[j - 1])
  {
  }

  function Historical(a: seq<byte>): nat
    requires |a| >= 2
  {
    a[1] % 16
  }

  /** The length of the answer that `a` begins, once `a` shows it. */
  function Total(a: seq<byte>): (n: nat)
    requires Scan(a, 2).Ends?
    ensures n >= 2
  {
    Scan(a, 2).at + Historical(a) + if Scan(a, 2).proto != 0 then 1 else 0
  }

  predicate Complete(a: seq<byte>) {
    Scan(a, 2).Ends? && Total(a) <= |a|
  }

  /** `ifd_atr_complete` */
  method AtrComplete(a: seq<byte>) returns (yes: bool)
    ensures yes == Complete(a)
  {
    var j, proto, c := 2, 0, 0;
    while true
      invariant j >= 2 && Scan(a, 2) == Scan(a, j)
      invariant j == 2 ==> proto == 0
      decreases |a| + 5 - j
    {
      if j > |a| {
        return false;
      }
      c := a[j - 1];
      if j > 2 {
        proto := c % 16;
      }
      var k := CountMarks(c);
      j := j + k;
      if !More(c) {
        break;
      }
    }
    j := j + a[1] % 16;
    if j > |a| {
      return false;
    }
    if proto != 0 && j + 1 > |a| {
      return false;
    }
    return true;
  }

  /** More bytes do not change what a walk that has ended says. */
  lemma {:induction false} ScanOfPrefix(a: seq<byte>, b: seq<byte>, j: nat)
    requires a <= b && j >= 2 && Scan(a, j).Ends?
    ensures Scan(b, j) == Scan(a, j)
    decreases |a| + 5 - j
  {
    var c := a[j - 1];
    assert b[j - 1] == c;
    if More(c) {
      ScanOfPrefix(a, b, j + Marks(c));
    }
  }

  /** Acceptance is monotone in the length: an answer that is complete stays so. */
  lemma CompleteOfPrefix(a: seq<byte>, b: seq<byte>)
    requires a <= b && Complete(a)
    ensures Complete(b) && Total(b) == Total(a)
  {
    ScanOfPrefix(a, b, 2);
    assert a[1] == b[1];
  }

  /** A walk needs no byte after its end. */
  lemma {:induction false} ScanNeedsNoMore(a: seq<byte>, j: nat, n: nat)
    requires j >= 2 && Scan(a, j).Ends? && Scan(a, j).at <= n <= |a|
    ensures Scan(a[..n], j) == Scan(a, j)
    decreases |a| + 5 - j
  {
    var c := a[j - 1];
    assert j <= n && a[..n][j - 1] == c;
    if More(c) {
      ScanNeedsNoMore(a, j + Marks(c), n);
    }
  }

  /** The prefixes of a complete answer that are complete are exactly those of the total length or
      more, so there is one shortest. */
  lemma {:induction false} CompleteExactly(a: seq<byte>, n: nat)
    requires Complete(a) && n <= |a|
    ensures Complete(a[..n]) <==> Total(a) <= n
  {
    if Complete(a[..n]) {
      CompleteOfPrefix(a[..n], a);
    }
    if Total(a) <= n {
      ScanNeedsNoMore(a, 2, n);
      assert a[..n][1] == a[1];
    }
  }

  // ---- the byte-by-byte reader ----

  /** All eight bits in the other order. */
  function Mirror(v: bv8): bv8 {
    ((v & 1) << 7) | ((v & 2) << 5) | ((v & 4) << 3) | ((v & 8) << 1) |
    ((v & 16) >> 1) | ((v & 32) >> 3) | ((v & 64) >> 5) | ((v & 128) >> 7)
  }

  /** A byte of the inverse convention, as it is meant: mirrored and complemented. */
  function Direct(b: byte): byte {
    Val(Mirror(Bits(b)) ^ 0xFF)
  }

  /** Converting twice gives the byte back, and 3F is the direct form of 03. */
  lemma DirectTwice(b: byte)
    ensures Direct(Direct(b)) == b && Direct(0x03) == 0x3F
  {
    var v := Bits(b);
    BitsOfVal(Mirror(v) ^ 0xFF);
    MirrorTwice(v);
    ValOfBits(b);
    assert Bits(0x03) == 3;
    assert Mirror(3) ^ 0xFF == 0x3F;
  }

  /** Bit by bit: what stands at one end stands, complemented, at the other. */
  lemma DirectBits(b: byte)
    ensures var v, w := Bits(b), Bits(Direct(b));
      && (w & 1 != 0 <==> v & 128 == 0) && (w & 2 != 0 <==> v & 64 == 0)
      && (w & 4 != 0 <==> v & 32 == 0) && (w & 8 != 0 <==> v & 16 == 0)
      && (w & 16 != 0 <==> v & 8 == 0) && (w & 32 != 0 <==> v & 4 == 0)
      && (w & 64 != 0 <==> v & 2 == 0) && (w & 128 != 0 <==> v & 1 == 0)
  {
    hide Mirror;
    var v := Bits(b);
    BitsOfVal(Mirror(v) ^ 0xFF);
    MirrorBits(v);
  }

  lemma MirrorBits(v: bv8)
    ensures var w := Mirror(v) ^ 0xFF;
      && (w & 1 != 0 <==> v & 128 == 0) && (w & 2 != 0 <==> v & 64 == 0)
      && (w & 4 != 0 <==> v & 32 == 0) && (w & 8 != 0 <==> v & 16 == 0)
      && (w & 16 != 0 <==> v & 8 == 0) && (w & 32 != 0 <==> v & 4 == 0)
      && (w & 64 != 0 <==> v & 2 == 0) && (w & 128 != 0 <==> v & 1 == 0)
  {
  }

  lemma MirrorTwice(v: bv8)
    ensures Mirror(Mirror(v) ^ 0xFF) ^ 0xFF == v
  {
  }

  /** The rounds of the reversal: bit `j` of `c` goes to bit `k` of `d`. */
  function Rounds(c: bv8, j: bv8, k: bv8, d: bv8): bv8
    decreases k
  {
    if k == 0 then d else Rounds(c, j << 1, k >> 1, Put(c, j, k, d))
  }

  function Put(c: bv8, j: bv8, k: bv8, d: bv8): bv8 {
    if c & j != 0 then d | k else d
  }

  lemma OneRound(c: bv8, j: bv8, k: bv8, d: bv8)
    requires k != 0
    ensures Rounds(c, j, k, d) == Rounds(c, j << 1, k >> 1, Put(c, j, k, d))
  {
  }

  lemma MirrorByPuts(c: bv8)
    ensures var d4 := Put(c, 8, 0x10, Put(c, 4, 0x20, Put(c, 2, 0x40, Put(c, 1, 0x80, 0))));
      Put(c, 0x80, 1, Put(c, 0x40, 2, Put(c, 0x20, 4, Put(c, 0x10, 8, d4)))) == Mirror(c)
  {
  }

  lemma RoundsMirror(c: bv8)
    ensures Rounds(c, 1, 0x80, 0) == Mirror(c)
  {
    var d1 := Put(c, 1, 0x80, 0);
    var d2 := Put(c, 2, 0x40, d1);
    var d3 := Put(c, 4, 0x20, d2);
    var d4 := Put(c, 8, 0x10, d3);
    var d5 := Put(c, 0x10, 8, d4);
    var d6 := Put(c, 0x20, 4, d5);
    var d7 := Put(c, 0x40, 2, d6);
    var d8 := Put(c, 0x80, 1, d7);
    MirrorByPuts(c);
    assert Rounds(c, 0, 0, d8) == d8;
    hide Rounds, Put, Mirror;
    OneRound(c, 1, 0x80, 0);
    OneRound(c, 2, 0x40, d1);
    OneRound(c, 4, 0x20, d2);
    OneRound(c, 8, 0x10, d3);
    OneRound(c, 0x10, 8, d4);
    OneRound(c, 0x20, 4, d5);
    OneRound(c, 0x40, 2, d6);
    OneRound(c, 0x80, 1, d7);
  }

  /** The loop over the bits of one byte in `ifd_revert_bits`. */
  method RevertByte(b: byte) returns (r: byte)
    ensures r == Direct(b)
  {
    hide Mirror, Bits, Val;
    var c := Bits(b);
    var j: bv8, k: bv8, d: bv8 := 1, 0x80, 0;
    while k != 0
      invariant Rounds(c, j, k, d) == Rounds(c, 1, 0x80, 0)
      decreases k
    {
      if c & j != 0 {
        d := d | k;
      }
      j, k := j << 1, k >> 1;
    }
    RoundsMirror(c);
    r := Val(d ^ 0xFF);
  }

  function Decoded(bytes: seq<byte>, revert: bool): (r: seq<byte>)
    ensures |r| == |bytes| && (!revert ==> r == bytes)
  {
    if revert then seq<byte>(|bytes|, i requires 0 <= i < |bytes| => Direct(bytes[i])) else bytes
  }

  /** The answer as far as the card sends it: the first byte tells the convention. */
  function Answer(first: byte, line: seq<byte>): seq<byte> {
    if first == 0x03 then [0x3F] + Decoded(line, true) else [first] + line
  }

  lemma DecodedSlice(line: seq<byte>, revert: bool, p: nat, q: nat)
    requires p <= q <= |line|
    ensures Decoded(line[p..q], revert) == Decoded(line, revert)[p..q]
  {
    hide Direct;
  }

  lemma AnswerShape(first: byte, line: seq<byte>)
    ensures var d := Answer(first, line);
      |d| == |line| + 1 && d[0] == (if first == 0x03 then 0x3F else first) && d[1..] == Decoded(line, first == 0x03)
  {
    hide Direct;
  }

  /** A slot's ATR buffer, and the bytes the card will send after the first. */
  class Slot {
    const atr: array<byte>
    var tail: nat
    const line: seq<byte>
    var pos: nat

    constructor (first: byte, line: seq<byte>)
      ensures fresh(atr) && atr.Length == 64 && tail == 1 && atr[0] == first && this.line == line && pos == 0
    {
      var a := new byte[64](_ => 0);
      a[0] := first;
      atr, tail, this.line, pos := a, 1, line, 0;
    }

    ghost predicate Valid()
      reads this
    {
      tail <= atr.Length && pos <= |line|
    }

    /** `ifd_revert_bits` on the `count` bytes at `from` */
    method RevertBits(from: nat, count: nat)
      requires from + count <= atr.Length
      modifies atr
      ensures atr[..from + count] == old(atr[..from]) + Decoded(old(atr[from..from + count]), true)
    {
      hide Direct;
      ghost var want := Decoded(atr[from..from + count], true);
      var n := 0;
      while n < count
        invariant 0 <= n <= count
        invariant atr[..from] == old(atr[..from]) && atr[from + n..from + count] == old(atr[from + n..from + count])
        invariant atr[from..from + n] == want[..n]
      {
        assert atr[from + n] == atr[from + n..from + count][0];
        var b := RevertByte(atr[from + n]);
        ghost var done, rest := atr[from..from + n], atr[from + n..from + count];
        atr[from + n] := b;
        assert atr[from..from + n + 1] == done + [b];
        assert atr[from + n + 1..from + count] == rest[1..];
        n := n + 1;
      }
      assert atr[..from + count] == atr[..from] + atr[from..from + count];
    }

    /** The receiving loop of `ifd_recv_atr`. */
    method Fill(count: nat) returns (ok: bool)
      requires Valid() && count <= atr.Length - tail
      modifies this`pos, atr
      ensures Valid() && old(atr[..tail]) == atr[..tail]
      ensures ok <==> old(pos) + count <= |line|
      ensures ok ==> pos == old(pos) + count && atr[tail..tail + count] == line[old(pos)..pos]
    {
      var n := 0;
      while n < count
        invariant 0 <= n <= count && pos == old(pos) + n <= |line|
        invariant old(atr[..tail]) == atr[..tail] && atr[tail..tail + n] == line[old(pos)..pos]
      {
        if pos == |line| {
          return false;
        }
        atr[tail + n] := line[pos];
        assert atr[tail..tail + n + 1] == line[old(pos)..pos] + [line[pos]];
        pos := pos + 1;
        n := n + 1;
      }
      ok := true;
    }

    /** `ifd_recv_atr` */
    method RecvAtr(count: nat, revert: bool) returns (ok: bool)
      requires Valid()
      modifies this, atr
      ensures Valid()
      ensures ok <==> old(tail) + count <= atr.Length && old(pos) + count <= |line|
      ensures tail == old(tail) + if ok then count else 0
      ensures ok ==> pos == old(pos) + count
      ensures atr[..tail] == old(atr[..tail]) + if ok then Decoded(line[old(pos)..pos], revert) else []
    {
      hide Decoded;
      if count > atr.Length - tail {
        return false;
      }
      ghost var was := atr[..tail];
      ok := Fill(count);
      if !ok {
        return;
      }
      ghost var got := line[old(pos)..pos];
      if revert {
        RevertBits(tail, count);
        assert atr[..tail + count] == was + Decoded(got, true);
      } else {
        assert atr[..tail + count] == atr[..tail] + atr[tail..tail + count];
        assert atr[..tail + count] == was + Decoded(got, false);
      }
      tail := tail + count;
      ok := true;
    }

    /** The byte-by-byte reader in `ifd_card_request`, after the first byte: it stops at exactly the
        shortest complete prefix of what the card sends, or fails because there is none that fits. */
    method ReadAtr() returns (count: int)
      requires Valid() && tail == 1 && pos == 0
      modifies this, atr
      ensures var d := Answer(old(atr[0]), line);
        && count == (if Complete(d) && Total(d) <= atr.Length then Total(d) else -1)
        && (count >= 0 ==> atr[..count] == d[..count] && pos == count - 1)
    {
      hide Direct, More, Marks, Scan, Answer;
      var revert := false;
      ghost var d := Answer(atr[0], line);
      AnswerShape(atr[0], line);
      if atr[0] == 0x03 {
        revert := true;
        atr[0] := 0x3F;
      }
      var ok := Take(1, revert, d);
      if !ok {
        return -1;
      }
      var c, proto, num := atr[1], 0, 0;
      while true
        invariant Valid() && AtStart(d) && tail >= 2 && |d| == |line| + 1 && d[1..] == Decoded(line, revert)
        invariant Scan(d, 2) == Scan(d, tail) && c == d[tail - 1] && proto == if tail > 2 then c % 16 else 0
        decreases |d| - tail
      {
        ScanStep(d, tail);
        num := CountMarks(c);
        ok := Take(num, revert, d);
        if !ok {
          return -1;
        }
        if !More(c) {
          break;
        }
        c := atr[tail - 1];
        proto := c % 16;
      }
      c := atr[1] % 16;
      ok := Take(c, revert, d);
      if !ok {
        return -1;
      }
      if proto != 0 {
        ok := Take(1, revert, d);
        if !ok {
          return -1;
        }
      }
      count := tail;
    }

    /** What the buffer holds is the beginning of `d`. */
    ghost predicate AtStart(d: seq<byte>)
      reads this, atr
    {
      1 <= tail <= |d| && tail <= atr.Length && pos == tail - 1 && atr[..tail] == d[..tail]
    }

    method Take(n: nat, revert: bool, ghost d: seq<byte>) returns (ok: bool)
      requires Valid() && AtStart(d) && |d| == |line| + 1 && d[1..] == Decoded(line, revert)
      modifies this, atr
      ensures Valid() && (ok <==> old(tail) + n <= Min(atr.Length, |d|))
      ensures ok ==> AtStart(d) && tail == old(tail) + n
    {
      hide Direct;
      ok := RecvAtr(n, revert);
      if ok {
        DecodedSlice(line, revert, old(pos), pos);
        assert d[old(tail)..tail] == d[1..][old(pos)..pos];
        assert d[..tail] == d[..old(tail)] + d[old(tail)..tail];
      }
    }
  }

  // ---- what the answer says about protocols ----

  /** The length without the historical bytes. */
  function Body(a: seq<byte>): int
    requires |a| >= 2
  {
    |a| - Historical(a)
  }

  /** T0 or a TD byte, and the position after it. */
  datatype Td = Td(at: nat, c: byte)

  /** T0 and the TD bytes after it that lie before `len`. */
  function Chain(a: seq<byte>, n: nat, len: int): (tds: seq<Td>)
    requires 2 <= n <= |a| && len <= |a|
    ensures tds != [] && tds[0] == Td(n, a[n - 1])
    decreases |a| - n
  {
    var c := a[n - 1];
    [Td(n, c)] + if n + Marks(c) < len && More(c) then Chain(a, n + Marks(c), len) else []
  }

  lemma ChainStep(a: seq<byte>, seen: seq<Td>, n: nat, len: int)
    requires 2 <= n <= |a| && len <= |a|
    ensures var c := a[n - 1];
      seen + Chain(a, n, len) ==
      seen + [Td(n, c)] + if n + Marks(c) < len && More(c) then Chain(a, n + Marks(c), len) else []
  {
  }

  /** All but T0. */
  function Tail(tds: seq<Td>): (r: seq<Td>)
    ensures |r| == if tds == [] then 0 else |tds| - 1
  {
    if tds == [] then [] else tds[1..]
  }

  /** The protocols that the bytes `tds` name. */
  function Named(tds: seq<Td>): set<nat> {
    set t | t in tds :: t.c % 16
  }

  /** The protocols on offer: those that TD bytes name, or T=0 when there is none. */
  function Offered(tds: seq<Td>): set<nat> {
    if Tail(tds) == [] then {0} else Named(Tail(tds))
  }

  /** The default: the first one named. */
  function First(tds: seq<Td>): (p: nat)
    ensures |tds| < 2 ==> p == 0
  {
    if |tds| < 2 then 0 else tds[1].c % 16
  }

  lemma TailGrows(tds: seq<Td>, t: Td)
    ensures tds != [] ==> Named(Tail(tds + [t])) == Named(Tail(tds)) + {t.c % 16}
    ensures tds == [] ==> Tail(tds + [t]) == []
    ensures |tds| == 1 ==> First(tds + [t]) == t.c % 16
    ensures |tds| >= 2 ==> First(tds + [t]) == First(tds)
    ensures Named(Tail(tds)) == {} <==> Tail(tds) == []
  {
    if tds != [] {
      assert Tail(tds + [t]) == Tail(tds) + [t];
    }
    if Tail(tds) != [] {
      assert Tail(tds)[0].c % 16 in Named(Tail(tds));
    }
  }

  /** The walk inlined in `ifd_protocol_select`: the default protocol and all that are offered. */
  method Select(a: seq<byte>) returns (ok: bool, def: int, supported: set<nat>)
    ensures ok <==> |a| >= 2
    ensures ok ==> def == First(Chain(a, 2, Body(a))) && supported == Offered(Chain(a, 2, Body(a)))
  {
    hide More, Marks, Named, Tail, First, Chain;
    def, supported := -1, {};
    if |a| < 2 {
      return false, def, supported;
    }
    var len := |a| - a[1] % 16;
    var n: nat, go := 2, true;
    ghost var seen: seq<Td> := [];
    TailGrows([], Td(2, a[1]));
    while go
      invariant 2 <= n && (go ==> n <= |a| && (n == 2 <==> seen == []))
      invariant Chain(a, 2, len) == seen + if go then Chain(a, n, len) else []
      invariant supported == Named(Tail(seen))
      invariant def == if |seen| < 2 then -1 else First(seen)
      decreases if go then |a| + 1 - n else 0
    {
      var td := a[n - 1];
      if n != 2 {
        supported := supported + {td % 16};
        if def < 0 {
          def := td % 16;
        }
      }
      TailGrows(seen, Td(n, td));
      ghost var was := seen;
      var k := CountMarks(td);
      ChainStep(a, was, n, len);
      seen := was + [Td(n, td)];
      go := n + k < len && More(td);
      n := n + k;
    }
    TailGrows(seen, Td(2, 0));
    assert seen == Chain(a, 2, len);
    if supported == {} {
      supported := {0};
    }
    if def < 0 {
      def := 0;
    }
    ok := true;
  }

  // ---- the parser (atr.c) ----

  predicate Has(c: byte, w: int)
    requires w in {16, 32, 64, 128}
  {
    c / w % 2 == 1
  }

  lemma MarksByBit(c: byte)
    ensures Marks(c) == (if Has(c, 16) then 1 else 0) + (if Has(c, 32) then 1 else 0) +
                        (if Has(c, 64) then 1 else 0) + (if More(c) then 1 else 0)
  {
    hide NibbleCount;
    var n := c / 16;
    OnesByNibble(n);
    Halves(n);
    HighBits(c);
    NibbleTable(n % 2, n / 2 % 2, n / 2 / 2 % 2, n / 2 / 2 / 2 % 2);
  }

  lemma HighBits(c: byte)
    ensures var n := c / 16;
      n / 16 == 0 && c / 32 == n / 2 && c / 64 == n / 2 / 2 && c / 128 == n / 2 / 2 / 2 < 2
  {
  }

  /** Group `i`'s interface byte of weight `w` (16: TA, 32: TB, 64: TC): the bytes announced stand
      in this order. An absent one is -1, but 0 in the fourth group. */
  function Field(a: seq<byte>, t: Td, w: int, i: nat): int
    requires w in {16, 32, 64} && t.at + Marks(t.c) <= |a|
  {
    MarksByBit(t.c);
    if !Has(t.c, w) then Absent(i)
    else a[t.at + (if w > 16 && Has(t.c, 16) then 1 else 0) + (if w > 32 && Has(t.c, 32) then 1 else 0)]
  }

  function Absent(i: nat): int {
    if i < 3 then -1 else 0
  }

  predicate Fits(t: Td, len: int) {
    Marks(t.c) != 0 && t.at + Marks(t.c) <= len
  }

  /** What the parser walks: nothing if nothing follows T0. */
  function Parsed(a: seq<byte>): seq<Td>
    requires |a| >= 2
  {
    if Body(a) <= 2 then [] else Chain(a, 2, Body(a))
  }

  /** What the parser accepts: at most four groups, none empty or cut off, and after the last one
      nothing is left but a check byte if some protocol other than T=0 is named. */
  predicate Parsable(a: seq<byte>) {
    |a| >= 2 && Body(a) >= 2 &&
    var tds := Parsed(a);
    && |tds| <= 4
    && (forall t | t in tds :: Fits(t, Body(a)))
    && (tds != [] && !More(tds[|tds| - 1].c) ==>
          var t := tds[|tds| - 1];
          t.at + Marks(t.c) >= Body(a) - if Named(Tail(tds)) - {0} != {} then 1 else 0)
  }

  lemma NotParsable(a: seq<byte>, t: Td)
    requires |a| >= 2 ==> Body(a) < 2 || |Parsed(a)| > 4 || (t in Parsed(a) && !Fits(t, Body(a)))
    ensures !Parsable(a)
  {
  }

  lemma ParsableAtEnd(a: seq<byte>, tds: seq<Td>)
    requires |a| >= 2 && Body(a) >= 2 && tds == Parsed(a) && |tds| <= 4 && forall t | t in tds :: Fits(t, Body(a))
    ensures tds == [] || More(tds[|tds| - 1].c) ==> Parsable(a)
    ensures tds != [] && !More(tds[|tds| - 1].c) ==>
      var t := tds[|tds| - 1];
      Parsable(a) <==> t.at + Marks(t.c) >= Body(a) - if Named(Tail(tds)) - {0} != {} then 1 else 0
  {
  }

  /** What the parser has still to walk. */
  function Ahead(a: seq<byte>, n: nat, len: int, ended: bool): (tds: seq<Td>)
    ensures ended || n >= len ==> tds == []
  {
    if 2 <= n < len <= |a| && !ended then Chain(a, n, len) else []
  }

  lemma ParsedStart(a: seq<byte>)
    requires |a| >= 2
    ensures Parsed(a) == Ahead(a, 2, Body(a), false)
  {
  }

  lemma ParsedStep(a: seq<byte>, seen: seq<Td>, n: nat, len: int)
    requires 2 <= n < len <= |a| && Parsed(a) == seen + Ahead(a, n, len, false)
    ensures var t := Td(n, a[n - 1]);
      && t in Parsed(a) && |Parsed(a)| > |seen|
      && Parsed(a) == seen + [t] + Ahead(a, n + Marks(t.c), len, !More(t.c))
  {
    hide Parsed, Chain, Ahead, Marks, More;
    var t := Td(n, a[n - 1]);
    AheadStep(a, n, len);
    var rest := Ahead(a, n + Marks(t.c), len, !More(t.c));
    assert seen + ([t] + rest) == seen + [t] + rest;
    assert (seen + [t] + rest)[|seen|] == t;
  }

  lemma AheadStep(a: seq<byte>, n: nat, len: int)
    requires 2 <= n < len <= |a|
    ensures var t := Td(n, a[n - 1]);
      Ahead(a, n, len, false) == [t] + Ahead(a, n + Marks(t.c), len, !More(t.c))
  {
  }

  /** `ifd_atr_info_t` */
  class AtrInfo {
    const ta: array<int>
    const tb: array<int>
    const tc: array<int>
    var supported: set<nat>
    var def: int

    constructor ()
      ensures Valid() && fresh(ta) && fresh(tb) && fresh(tc)
    {
      ta, tb, tc := new int[4], new int[4], new int[4];
      supported, def := {}, 0;
    }

    ghost predicate Valid() {
      ta.Length == tb.Length == tc.Length == 4 && ta != tb && tb != tc && ta != tc
    }

    /** The arrays hold the interface bytes of the groups `tds`. */
    ghost predicate Holds(a: seq<byte>, tds: seq<Td>)
      requires Valid() && |tds| <= 4 && forall t | t in tds :: t.at + Marks(t.c) <= |a|
      reads ta, tb, tc
    {
      forall i | 0 <= i < 4 ::
        && ta[i] == (if i < |tds| then Field(a, tds[i], 16, i) else Absent(i))
        && tb[i] == (if i < |tds| then Field(a, tds[i], 32, i) else Absent(i))
        && tc[i] == (if i < |tds| then Field(a, tds[i], 64, i) else Absent(i))
    }

    method Clear()
      requires Valid()
      modifies this, ta, tb, tc
      ensures supported == {} && def == -1 && Holds([], [])
    {
      supported, def := {}, -1;
      var i := 0;
      while i < 4
        invariant 0 <= i <= 4 && supported == {} && def == -1
        invariant forall k | 0 <= k < i :: ta[k] == tb[k] == tc[k] == 0
      {
        ta[i], tb[i], tc[i] := 0, 0, 0;
        i := i + 1;
      }
      i := 0;
      while i < 3
        invariant 0 <= i <= 3 && supported == {} && def == -1
        invariant forall k | 0 <= k < 4 :: ta[k] == tb[k] == tc[k] == if k < i then -1 else 0
      {
        ta[i], tb[i], tc[i] := -1, -1, -1;
        i := i + 1;
      }
    }

    /** One group of interface bytes: TA, TB and TC as announced; `next` is past them. */
    method Store(a: seq<byte>, m: nat, ghost tds: seq<Td>, n: nat, td: byte) returns (next: nat)
      requires Valid() && m == |tds| < 4 && (forall t | t in tds :: t.at + Marks(t.c) <= |a|) && Holds(a, tds)
      requires n + Marks(td) <= |a|
      modifies ta, tb, tc
      ensures next == n + Marks(td) - if More(td) then 1 else 0
      ensures Holds(a, tds + [Td(n, td)])
    {
      MarksByBit(td);
      hide Marks, More, Has;
      ghost var t := Td(n, td);
      next := n;
      if Has(td, 16) {
        ta[m] := a[next];
        next := next + 1;
      }
      if Has(td, 32) {
        tb[m] := a[next];
        next := next + 1;
      }
      if Has(td, 64) {
        tc[m] := a[next];
        next := next + 1;
      }
    }

    /** `ifd_atr_parse` */
    method Parse(a: seq<byte>) returns (rc: int)
      requires Valid()
      modifies this, ta, tb, tc
      ensures rc == if Parsable(a) then 0 else -18
      ensures rc == 0 ==> Holds(a, Parsed(a))
      ensures rc == 0 ==> def == First(Chain(a, 2, Body(a))) && supported == Offered(Chain(a, 2, Body(a)))
    {
      hide More, Marks, Named, Tail, First, Chain, Holds, Parsable, Parsed, Ahead;
      Clear();
      if |a| < 2 || |a| < 2 + a[1] % 16 {
        NotParsable(a, Td(0, 0));
        return -18;
      }
      var body := |a| - a[1] % 16;
      var len, m: nat, n: nat, ended := body, 0, 2, false;
      ghost var seen: seq<Td> := [];
      TailGrows([], Td(2, a[1]));
      HoldsNothing(a);
      ParsedStart(a);
      while n < len && !ended
        invariant !ended ==> len == body && 2 <= n <= len && (n == 2 <==> seen == [])
        invariant m == |seen| <= 4 && (forall t | t in seen :: Fits(t, body)) && Holds(a, seen)
        invariant Parsed(a) == seen + Ahead(a, n, len, ended)
        invariant supported == Named(Tail(seen)) && def == if |seen| < 2 then -1 else First(seen)
        invariant ended ==> Parsable(a)
        invariant !ended && seen != [] ==> More(seen[|seen| - 1].c)
        decreases len - n, !ended
      {
        ghost var was := seen;
        ParsedStep(a, was, n, len);
        if m > 3 {
          NotParsable(a, Td(0, 0));
          return -18;
        }
        var td := a[n - 1];
        ghost var t := Td(n, td);
        TailGrows(was, t);
        if n != 2 {
          var prot := td % 16;
          if def < 0 {
            def := prot;
          }
          supported := supported + {prot};
        }
        var k := CountMarks(td);

        if k == 0 || n + k > len {
          NotParsable(a, t);
          return -18;
        }
        seen := was + [t];
        n := Store(a, m, was, n, td);
        if !More(td) {
          ParsableAtEnd(a, seen);
          if supported - {0} != {} {
            len := len - 1;
          }
          if n < len {
            return -18;
          }
          ended := true;
        } else {
          n := n + 1;
        }
        m := m + 1;
      }
      TailGrows(seen, Td(2, 0));
      assert Parsed(a) == seen;
      ParsableAtEnd(a, seen);
      TailOfParsed(a);
      if supported == {} {
        supported := {0};
        def := 0;
      }
      rc := 0;
    }

    lemma HoldsNothing(a: seq<byte>)
      requires Valid() && Holds([], [])
      ensures Holds(a, [])
    {
    }
  }

  /** If nothing follows T0, both walks name nothing. */
  lemma TailOfParsed(a: seq<byte>)
    requires |a| >= 2
    ensures Offered(Parsed(a)) == Offered(Chain(a, 2, Body(a))) && First(Parsed(a)) == First(Chain(a, 2, Body(a)))
  {
    var tds := Chain(a, 2, Body(a));
    if Body(a) <= 2 {
      assert tds == [Td(2, a[1])];
    }
  }

  // ---- the reader's answers, parsed ----

  /** T0 and all TD bytes, as the reader and the completeness check see them. */
  function Tds(a: seq<byte>, j: nat): (tds: seq<Td>)
    requires j >= 2 && Scan(a, j).Ends?
    ensures tds != [] && tds[0] == Td(j, a[j - 1])
    decreases |a| + 5 - j
  {
    var c := a[j - 1];
    [Td(j, c)] + if More(c) then Tds(a, j + Marks(c)) else []
  }

  /** One step of the walk, for both views of it. */
  lemma TdsStep(a: seq<byte>, j: nat)
    requires j >= 2 && Scan(a, j).Ends?
    ensures j <= |a|
    ensures More(a[j - 1]) ==>
      var k := j + Marks(a[j - 1]);
      k > j && Scan(a, k) == Scan(a, j) && Tds(a, j) == [Td(j, a[j - 1])] + Tds(a, k)
    ensures !More(a[j - 1]) ==>
      && Tds(a, j) == [Td(j, a[j - 1])]
      && Scan(a, j) == Ends(j + Marks(a[j - 1]), if j > 2 then a[j - 1] % 16 else 0)
  {
    hide More, Marks;
  }

  function Last(tds: seq<Td>): Td
    requires tds != []
  {
    tds[|tds| - 1]
  }

  /** A byte after which no interface byte follows. */
  predicate Bare(t: Td) {
    Marks(t.c) == 0
  }

  /** An answer as the reader leaves it: complete, and not a byte longer. */
  predicate AsRead(a: seq<byte>) {
    Complete(a) && Total(a) == |a|
  }

  lemma {:induction false} LastTd(a: seq<byte>, j: nat)
    requires j >= 2 && Scan(a, j).Ends?
    ensures var t := Last(Tds(a, j));
      && !More(t.c) && t.at + Marks(t.c) == Scan(a, j).at && j <= t.at
      && Scan(a, j).proto == (if t.at > 2 then t.c % 16 else 0)
      && (t.at > j || |Tds(a, j)| == 1)
    decreases |a| + 5 - j
  {
    hide More, Marks, Scan, Tds;
    TdsStep(a, j);
    var c := a[j - 1];
    if More(c) {
      LastTd(a, j + Marks(c));
    }
  }

  /** On what the reader delivers, the parser's walk meets every TD byte, but for a bare last one
      without check byte after it. */
  lemma {:induction false} ChainOfRead(a: seq<byte>, j: nat, body: nat)
    requires j >= 2 && Scan(a, j).Ends? && body <= |a|
    requires body == Scan(a, j).at + if Scan(a, j).proto != 0 then 1 else 0
    ensures var t := Tds(a, j);
      Chain(a, j, body) == if Bare(Last(t)) && |t| > 1 && Scan(a, j).proto == 0 then t[..|t| - 1] else t
    decreases |a| + 5 - j
  {
    hide More, Marks;
    var c := a[j - 1];
    if More(c) {
      ScanStep(a, j);
      var k := j + Marks(c);
      LastTd(a, k);
      var t := Tds(a, k);
      assert Last(Tds(a, j)) == Last(t);
      if k < body {
        ChainOfRead(a, k, body);
        if |t| == 1 && Bare(Last(t)) {
          assert Scan(a, j).proto != 0;
        }
        assert Tds(a, j)[..|t|] == [Td(j, c)] + t[..|t| - 1];
      } else {
        LastTd(a, k);
        ScanStep(a, k);
      }
    }
  }

  /** When a later TD byte is bare and names T=0, the walk leaves it out; otherwise what the parser
      and selection take as offered is what all TD bytes name. */
  lemma ReadOffers(a: seq<byte>)
    requires AsRead(a)
    ensures var t := Tds(a, 2);
      var seen := if Bare(Last(t)) && |t| > 1 && Last(t).c % 16 == 0 then t[..|t| - 1] else t;
      Chain(a, 2, Body(a)) == seen
  {
    ChainOfRead(a, 2, Body(a));
    LastTd(a, 2);
  }

  /** All end by `at`, and all but the last announce another. */
  predicate Linked(tds: seq<Td>, at: nat) {
    && (forall i | 0 <= i < |tds| :: tds[i].at + Marks(tds[i].c) <= at)
    && (forall i | 0 <= i < |tds| - 1 :: More(tds[i].c))
  }

  lemma {:induction false} TdsLinked(a: seq<byte>, j: nat)
    requires j >= 2 && Scan(a, j).Ends?
    ensures Linked(Tds(a, j), Scan(a, j).at)
    decreases |a| + 5 - j
  {
    hide More, Marks, Scan, Tds;
    TdsStep(a, j);
    var c := a[j - 1];
    if More(c) {
      TdsLinked(a, j + Marks(c));
    }
  }

  /** The parser accepts what the reader delivers exactly when there are at most four groups and the
      last TD byte, if bare, names T=0. */
  lemma {:induction false} ReadParses(a: seq<byte>)
    requires AsRead(a)
    ensures var t := Tds(a, 2);
      Parsable(a) <==>
        if Bare(Last(t)) then |t| == 1 || (|t| <= 5 && Last(t).c % 16 == 0) else |t| <= 4
  {
    hide More, Marks, Named, Parsable, Chain;
    var t := Tds(a, 2);
    LastTd(a, 2);
    ReadOffers(a);
    TdsLinked(a, 2);
    if |t| == 1 && Bare(Last(t)) {
      ParsableAtEnd(a, []);
    } else {
      var seen := Chain(a, 2, Body(a));
      assert seen == Parsed(a);
      if Bare(Last(t)) && Last(t).c % 16 != 0 {
        assert Last(t) in seen;
        NotParsable(a, Last(t));
      } else if |seen| > 4 {
        NotParsable(a, Last(t));
      } else {
        assert forall x | x in seen :: Fits(x, Body(a));
        ParsableAtEnd(a, seen);
        if seen == t && Scan(a, 2).proto != 0 {
          NamedHas(Tail(t), Last(t));
          assert Last(t).c % 16 in Named(Tail(t)) - {0};
        }
      }
    }
  }

  lemma NamedHas(tds: seq<Td>, t: Td)
    requires t in tds
    ensures t.c % 16 in Named(tds)
  {
  }

  /** Section 8.2.5 of ISO/IEC 7816-3: there is a check byte unless T=0 alone is offered. The reader
      goes by the last TD byte, and so is right exactly when that does not name T=0 after another
      has named something else. */
  lemma CheckByteIff(a: seq<byte>)
    requires Scan(a, 2).Ends?
    ensures var t := Tds(a, 2); var due := Named(Tail(t)) - {0} != {};
      ((Scan(a, 2).proto != 0) <==> due) <==> !(due && Last(t).c % 16 == 0)
  {
    var t := Tds(a, 2);
    LastTd(a, 2);
    if Scan(a, 2).proto != 0 {
      assert Last(t) in Tail(t);
      NamedHas(Tail(t), Last(t));
      assert Last(t).c % 16 in Named(Tail(t)) - {0};
    } else if Named(Tail(t)) - {0} != {} {
      assert |t| > 1;
      TdsAfterFirst(a);
    }
  }

  lemma TdsAfterFirst(a: seq<byte>)
    requires Scan(a, 2).Ends? && |Tds(a, 2)| > 1
    ensures Last(Tds(a, 2)).at > 2
  {
    hide More, Marks, Scan, Tds;
    TdsStep(a, 2);
    LastTd(a, 2 + Marks(a[1]));
  }

  lemma OneMark()
    ensures Marks(0x80) == Marks(0x81) == Marks(0x10) == 1
  {
    hide Marks;
    MarksByBit(0x80);
    MarksByBit(0x81);
    MarksByBit(0x10);
  }

  /** T=1 offered first, then T=0: the reader takes the answer for complete without its check byte.
      Section 8.2.3 has T=0 come first and the others in ascending order, so that only an answer that
      does not conform is affected. */
  lemma CheckByteMissed()
    ensures var a: seq<byte> := [0x3B, 0x80, 0x81, 0x10, 0x00];
      Complete(a) && Total(a) == |a| && 1 in Named(Tail(Tds(a, 2)))
  {
    var a: seq<byte> := [0x3B, 0x80, 0x81, 0x10, 0x00];
    hide Marks, Ones;
    OneMark();
    assert Scan(a, 4) == Ends(5, 0);
    assert Scan(a, 3) == Scan(a, 4) && Scan(a, 2) == Scan(a, 3);
    assert Tds(a, 2) == [Td(2, 0x80)] + Tds(a, 3) && Tds(a, 3)[0] == Td(3, 0x81);
    assert Tail(Tds(a, 2))[0] == Td(3, 0x81);
    NamedHas(Tail(Tds(a, 2)), Td(3, 0x81));
  }
}
