/** Paged, verified writes to a synchronous memory card (proto-sync.c), with retries. */
module SyncWrite {
  import opened Bytes

  const NOT_SUPPORTED := -4

  /** Card addresses are `unsigned short`. */
  const SIZE := 0x1_0000
  const PAGE := 256

  datatype ProtocolId = I2CShort | I2CLong | TwoWire | ThreeWire | Eurochip

  /** What one write does: what the driver returns, and what is in the bytes written to after it,
      which need not be what was to be written. Then what the read-back does: whether it works, and
      what is in the local buffer if it does not, since its result is not looked at. */
  datatype Outcome = Outcome(rc: int, stored: nat -> byte, read: bool, temp: nat -> byte)

  /** The writes a transfer makes, each with its address and length. */
  datatype Write = Verified(addr: nat, count: nat) | Mismatch(addr: nat, count: nat) | Refused(addr: nat, count: nat)

  datatype Result = Result(rc: int, memory: seq<byte>, writes: seq<Write>)

  predicate OnCard(memory: seq<byte>, addr: nat) {
    |memory| == SIZE && addr < SIZE
  }

  function Overwrite(memory: seq<byte>, addr: nat, data: seq<byte>): (r: seq<byte>)
    requires addr + |data| <= |memory|
    ensures |r| == |memory|
  {
    memory[..addr] + data + memory[addr + |data|..]
  }

  function After(memory: seq<byte>, addr: nat, count: nat, o: Outcome): (r: seq<byte>)
    requires addr + count <= |memory|
    ensures |r| == |memory|
  {
    Overwrite(memory, addr, seq<byte>(count, i requires 0 <= i < count => o.stored(i)))
  }

  /** How much fits on the page of `addr`; it never reaches past the last address. */
  function Chunk(addr: nat, len: nat): (n: nat)
    requires len > 0
    ensures 0 < n <= len && n <= PAGE
    ensures addr < SIZE ==> addr + n <= SIZE
  {
    Min(PAGE - addr % PAGE, len)
  }

  /** The address after a chunk, in sixteen bits */
  function Next(addr: nat, count: nat): (a: nat)
    ensures a < SIZE
  {
    (addr + count) % SIZE
  }

  /** What `memcmp` finds in the local buffer. */
  function ReadBack(memory: seq<byte>, addr: nat, count: nat, o: Outcome): seq<byte>
    requires addr + count <= |memory|
  {
    if o.read then memory[addr..addr + count] else seq<byte>(count, i requires 0 <= i < count => o.temp(i))
  }

  predicate Took(memory: seq<byte>, addr: nat, data: seq<byte>, count: nat, o: Outcome)
    requires addr + count <= |memory| && count <= |data|
  {
    ReadBack(memory, addr, count, o) == data[..count]
  }

  /** The transfer: `outcomes(n)` is what becomes of write number `n`. It ends because each round
      finishes a page or uses up a retry. */
  function Transfer(outcomes: nat -> Outcome, n: nat, memory: seq<byte>, addr: nat, data: seq<byte>, retries: nat)
    : Result
    requires OnCard(memory, addr)
    decreases |data|, retries
  {
    if data == [] then Result(0, memory, [])
    else
      var count := Chunk(addr, |data|);
      var now := After(memory, addr, count, outcomes(n));
      if outcomes(n).rc < 0 then Result(outcomes(n).rc, now, [Refused(addr, count)])
      else if !Took(now, addr, data, count, outcomes(n)) then
        if retries == 0 then Result(-1, now, [Mismatch(addr, count)])
        else
          var rest := Transfer(outcomes, n + 1, now, addr, data, retries - 1);
          rest.(writes := [Mismatch(addr, count)] + rest.writes)
      else
        var rest := Transfer(outcomes, n + 1, now, Next(addr, count), data[count..], retries);
        rest.(writes := [Verified(addr, count)] + rest.writes)
  }

  // ---- what it achieves ----

  /** One round. */
  lemma TransferStep(outcomes: nat -> Outcome, n: nat, memory: seq<byte>, addr: nat, data: seq<byte>, retries: nat)
    requires OnCard(memory, addr) && data != []
    ensures var count := Chunk(addr, |data|); var now := After(memory, addr, count, outcomes(n));
      var r := Transfer(outcomes, n, memory, addr, data, retries);
      if outcomes(n).rc < 0 then r == Result(outcomes(n).rc, now, [Refused(addr, count)])
      else if Took(now, addr, data, count, outcomes(n)) then
        var rest := Transfer(outcomes, n + 1, now, Next(addr, count), data[count..], retries);
        r == rest.(writes := [Verified(addr, count)] + rest.writes)
      else if retries == 0 then r == Result(-1, now, [Mismatch(addr, count)])
      else
        var rest := Transfer(outcomes, n + 1, now, addr, data, retries - 1);
        r == rest.(writes := [Mismatch(addr, count)] + rest.writes)
  {
    hide Chunk, After, Took, Next;
  }

  lemma NothingLeft(outcomes: nat -> Outcome, n: nat, memory: seq<byte>, addr: nat, retries: nat)
    requires OnCard(memory, addr)
    ensures Transfer(outcomes, n, memory, addr, [], retries) == Result(0, memory, [])
  {
  }

  /** How far address `j` lies behind `addr`; behind the last address comes the first. */
  function Behind(addr: nat, j: nat): nat {
    (j - addr) % SIZE
  }

  /** From `before` to `after` nothing changes outside the range. */
  predicate Kept(before: seq<byte>, after: seq<byte>, addr: nat, len: nat) {
    && |after| == |before| == SIZE
    && forall j | 0 <= j < SIZE && Behind(addr, j) >= len :: after[j] == before[j]
  }

  /** The range holds the data: of more data than there are addresses, the last. */
  predicate Has(memory: seq<byte>, addr: nat, data: seq<byte>) {
    |memory| == SIZE && forall i | 0 <= i < |data| && |data| - i <= SIZE :: memory[Next(addr, i)] == data[i]
  }

  /** Nothing outside the range is touched; and on success, if every read-back worked, the range
      holds the data. */
  lemma {:induction false} WritesTheRange(outcomes: nat -> Outcome, n: nat, memory: seq<byte>, addr: nat,
                                          data: seq<byte>, retries: nat)
    requires OnCard(memory, addr)
    ensures var r := Transfer(outcomes, n, memory, addr, data, retries);
      && Kept(memory, r.memory, addr, |data|)
      && (r.rc == 0 && (forall m | n <= m < n + |r.writes| :: outcomes(m).read) ==> Has(r.memory, addr, data))
    decreases |data|, retries
  {
    hide Kept, Has, Transfer, After, Chunk, Took, Next;
    if data == [] {
      NothingLeft(outcomes, n, memory, addr, retries);
      KeptNothing(memory, addr);
    } else {
      TransferStep(outcomes, n, memory, addr, data, retries);
      var count := Chunk(addr, |data|);
      var now := After(memory, addr, count, outcomes(n));
      AfterKept(memory, addr, count, outcomes(n), |data|);
      var r := Transfer(outcomes, n, memory, addr, data, retries);
      if outcomes(n).rc >= 0 && Took(now, addr, data, count, outcomes(n)) {
        WritesTheRange(outcomes, n + 1, now, Next(addr, count), data[count..], retries);
        AfterKept(memory, addr, count, outcomes(n), count);
        KeptOn(memory, now, r.memory, addr, |data|, count);
        if outcomes(n).read {
          HasOn(now, r.memory, addr, data, count, outcomes(n));
        }
      } else if outcomes(n).rc >= 0 && retries > 0 {
        WritesTheRange(outcomes, n + 1, now, addr, data, retries - 1);
        KeptTwice(memory, now, r.memory, addr, |data|);
      }
    }
  }

  lemma KeptNothing(memory: seq<byte>, addr: nat)
    requires |memory| == SIZE
    ensures Kept(memory, memory, addr, 0) && Has(memory, addr, [])
  {
  }

  lemma AfterKept(memory: seq<byte>, addr: nat, count: nat, o: Outcome, len: nat)
    requires OnCard(memory, addr) && count <= len && addr + count <= SIZE
    ensures Kept(memory, After(memory, addr, count, o), addr, len)
  {
    var now := After(memory, addr, count, o);
    forall j | 0 <= j < SIZE && Behind(addr, j) >= len ensures now[j] == memory[j] {
      assert j < addr || j >= addr + count;
    }
  }

  lemma KeptTwice(a: seq<byte>, b: seq<byte>, c: seq<byte>, addr: nat, len: nat)
    requires Kept(a, b, addr, len) && Kept(b, c, addr, len)
    ensures Kept(a, c, addr, len)
  {
  }

  /** A chunk, then the rest of the range. */
  lemma KeptOn(a: seq<byte>, b: seq<byte>, c: seq<byte>, addr: nat, len: nat, count: nat)
    requires count <= len && addr < SIZE && Kept(a, b, addr, count) && Kept(b, c, Next(addr, count), len - count)
    ensures Kept(a, c, addr, len)
  {
    forall j | 0 <= j < SIZE && Behind(addr, j) >= len ensures c[j] == a[j] {
      assert Behind(Next(addr, count), j) == Behind(addr, j) - count;
    }
  }

  lemma InChunk(addr: nat, count: nat, i: nat)
    requires i < count <= PAGE && addr + count <= SIZE
    ensures Next(addr, i) == addr + i && Behind(Next(addr, count), addr + i) == SIZE + i - count
  {
  }

  lemma PastChunk(addr: nat, count: nat, i: nat)
    requires count <= i
    ensures Next(Next(addr, count), i - count) == Next(addr, i)
  {
  }

  lemma HasOn(b: seq<byte>, c: seq<byte>, addr: nat, data: seq<byte>, count: nat, o: Outcome)
    requires OnCard(b, addr) && count <= |data| && count <= PAGE && addr + count <= SIZE
    requires o.read && Took(b, addr, data, count, o) && Kept(b, c, Next(addr, count), |data| - count)
    ensures Has(c, Next(addr, count), data[count..]) ==> Has(c, addr, data)
  {
    hide Next, Behind;
    if Has(c, Next(addr, count), data[count..]) {
      forall i | 0 <= i < |data| && |data| - i <= SIZE ensures c[Next(addr, i)] == data[i] {
        if i < count {
          InChunk(addr, count, i);
          assert b[addr + i] == b[addr..addr + count][i] == data[..count][i];
        } else {
          PastChunk(addr, count, i);
          assert data[count..][i - count] == data[i];
        }
      }
    }
  }

  // ---- a read-back whose result is not looked at ----

  /** Whatever read-backs work as `works` says, and whatever else happens: success means that the
      range holds the data. */
  ghost predicate Trusted(works: nat -> bool) {
    forall outcomes: nat -> Outcome, n: nat, memory, addr: nat, data: seq<byte>, retries: nat
      | OnCard(memory, addr) && forall m: nat :: outcomes(m).read == works(m) ::
      var r := Transfer(outcomes, n, memory, addr, data, retries); r.rc == 0 ==> Has(r.memory, addr, data)
  }

  /** A byte that is not stored passes for written if its read-back fails and leaves that byte in
      the local buffer. */
  lemma UnreadPasses(outcomes: nat -> Outcome, n: nat, memory: seq<byte>, addr: nat, b: byte, retries: nat)
    requires OnCard(memory, addr) && !outcomes(n).read && outcomes(n).rc == 0
    requires outcomes(n).temp(0) == b && outcomes(n).stored(0) != b
    ensures var r := Transfer(outcomes, n, memory, addr, [b], retries); r.rc == 0 && !Has(r.memory, addr, [b])
  {
    var now := After(memory, addr, 1, outcomes(n));
    assert Chunk(addr, 1) == 1;
    TransferStep(outcomes, n, memory, addr, [b], retries);
    assert ReadBack(now, addr, 1, outcomes(n)) == [b][..1];
    NothingLeft(outcomes, n + 1, now, Next(addr, 1), retries);
    assert now[Next(addr, 0)] != [b][0];
  }

  /** Success can be trusted if and only if no read-back fails. */
  lemma TrustedExactly(works: nat -> bool)
    ensures Trusted(works) <==> forall m: nat :: works(m)
  {
    if m: nat :| !works(m) {
      var outcomes: nat -> Outcome := (k: nat) => Outcome(0, (i: nat) => 0, works(k), (i: nat) => 1);
      var memory := seq<byte>(SIZE, _ => 0);
      assert OnCard(memory, 0);
      UnreadPasses(outcomes, m, memory, 0, 1, 0);
    } else {
      forall outcomes: nat -> Outcome, n: nat, memory, addr: nat, data: seq<byte>, retries: nat
        | OnCard(memory, addr) && forall m: nat :: outcomes(m).read == works(m)
        ensures var r := Transfer(outcomes, n, memory, addr, data, retries); r.rc == 0 ==> Has(r.memory, addr, data)
      {
        WritesTheRange(outcomes, n, memory, addr, data, retries);
      }
    }
  }

  // ---- which writes it makes ----

  /** The range cut at page borders. */
  function Pages(addr: nat, len: nat): seq<(nat, nat)>
    decreases len
  {
    if len == 0 then [] else [(addr, Chunk(addr, len))] + Pages(Next(addr, Chunk(addr, len)), len - Chunk(addr, len))
  }

  /** The ranges follow one another without gap or overlap from `addr` to the end, the first address
      after the last; each lies in one page of 256 bytes, and takes all that is left of it. */
  ghost predicate Tiles(ranges: seq<(nat, nat)>, addr: nat, len: nat)
    decreases |ranges|
  {
    if ranges == [] then len == 0
    else
      var (a, n) := ranges[0];
      && a == addr && 0 < n <= len
      && a / 256 == (a + n - 1) / 256 && (n == len || (a + n) % 256 == 0)
      && Tiles(ranges[1..], (addr + n) % 65536, len - n)
  }

  lemma {:induction false} PagesTile(addr: nat, len: nat)
    ensures Tiles(Pages(addr, len), addr, len)
    decreases len
  {
    hide Chunk, Next;
    if len > 0 {
      var n := Chunk(addr, len);
      PagesTile(Next(addr, n), len - n);
      assert Pages(addr, len)[1..] == Pages(Next(addr, n), len - n);
      ToTheBorder(addr, len);
      OnePage(addr, n);
    }
  }

  lemma ToTheBorder(addr: nat, len: nat)
    requires len > 0
    ensures var n := Chunk(addr, len);
      && n <= PAGE - addr % PAGE && (n == len || (addr + n) % 256 == 0) && Next(addr, n) == (addr + n) % 65536
  {
    var n := Chunk(addr, len);
    if n != len {
      assert addr + n == 256 * (addr / 256 + 1);
    }
  }

  lemma OnePage(addr: nat, n: nat)
    requires 0 < n <= PAGE - addr % PAGE
    ensures addr / PAGE == (addr + n - 1) / PAGE
  {
    assert addr == PAGE * (addr / PAGE) + addr % PAGE;
    assert addr + n - 1 == PAGE * (addr / PAGE) + (addr % PAGE + n - 1);
  }

  function VerifiedRanges(writes: seq<Write>): seq<(nat, nat)> {
    if writes == [] then []
    else (if writes[0].Verified? then [(writes[0].addr, writes[0].count)] else []) + VerifiedRanges(writes[1..])
  }

  function Mismatches(writes: seq<Write>): nat {
    if writes == [] then 0 else (if writes[0].Mismatch? then 1 else 0) + Mismatches(writes[1..])
  }

  /** Every write but the last stands for itself or is repeated: a mismatch is followed by a write
      of the same bytes to the same place. */
  ghost predicate Repeats(writes: seq<Write>) {
    forall i | 0 <= i < |writes| - 1 ::
      !writes[i].Refused? &&
      (writes[i].Mismatch? ==> writes[i + 1].addr == writes[i].addr && writes[i + 1].count == writes[i].count)
  }

  /** What the writes of a transfer with result `rc` are. If it succeeds, they are the range's page
      writes in order, each verified once, with at most `retries` repeated. If it fails, they are a
      beginning of them, and the last one is refused, with its error as the result, or is the first
      mismatch beyond the retries. */
  ghost predicate Accounts(rc: int, writes: seq<Write>, addr: nat, len: nat, retries: nat) {
    && VerifiedRanges(writes) <= Pages(addr, len)
    && (rc == 0 <==> VerifiedRanges(writes) == Pages(addr, len))
    && Repeats(writes) && (len > 0 ==> writes != [] && writes[0].addr == addr && writes[0].count == Chunk(addr, len))
    && (len == 0 ==> writes == [])
    && (writes != [] ==> Ending(rc, writes[|writes| - 1], Mismatches(writes), retries))
  }

  predicate Ending(rc: int, last: Write, mismatches: nat, retries: nat) {
    match last
    case Verified(_, _) => rc == 0 && mismatches <= retries
    case Refused(_, _) => rc < 0 && mismatches <= retries
    case Mismatch(_, _) => rc == -1 && mismatches == retries + 1
  }

  lemma AccountsVerified(rc: int, rest: seq<Write>, addr: nat, len: nat, retries: nat)
    requires len > 0 && Accounts(rc, rest, Next(addr, Chunk(addr, len)), len - Chunk(addr, len), retries)
    ensures Accounts(rc, [Verified(addr, Chunk(addr, len))] + rest, addr, len, retries)
  {
    hide Chunk;
    var count := Chunk(addr, len);
    var all := [Verified(addr, count)] + rest;
    assert all[1..] == rest;
    RepeatsMore(Verified(addr, count), rest);
    if rest == [] {
      assert Mismatches(all) == 0;
    } else {
      assert all[|all| - 1] == rest[|rest| - 1];
    }
  }

  lemma AccountsMismatch(rc: int, rest: seq<Write>, addr: nat, len: nat, retries: nat)
    requires len > 0 && retries > 0 && Accounts(rc, rest, addr, len, retries - 1)
    ensures Accounts(rc, [Mismatch(addr, Chunk(addr, len))] + rest, addr, len, retries)
  {
    hide Chunk;
    var all := [Mismatch(addr, Chunk(addr, len))] + rest;
    assert all[1..] == rest && all[|all| - 1] == rest[|rest| - 1];
    RepeatsMore(all[0], rest);
  }

  lemma RepeatsMore(w: Write, rest: seq<Write>)
    requires Repeats(rest) && !w.Refused?
    requires w.Mismatch? ==> rest != [] && rest[0].addr == w.addr && rest[0].count == w.count
    ensures Repeats([w] + rest)
  {
    var all := [w] + rest;
    forall i | 0 <= i < |all| - 1
      ensures !all[i].Refused?
      ensures all[i].Mismatch? ==> all[i + 1].addr == all[i].addr && all[i + 1].count == all[i].count
    {
      assert all[i + 1] == rest[i];
      if i > 0 {
        assert all[i] == rest[i - 1];
      }
    }
  }

  /** Every transfer accounts for its writes. */
  lemma {:induction false} WritesThePages(outcomes: nat -> Outcome, n: nat, memory: seq<byte>, addr: nat,
                                          data: seq<byte>, retries: nat)
    requires OnCard(memory, addr)
    ensures var r := Transfer(outcomes, n, memory, addr, data, retries);
      Accounts(r.rc, r.writes, addr, |data|, retries)
    decreases |data|, retries
  {
    hide Chunk, After, Transfer, Accounts, Took, Next;
    if data == [] {
      NothingLeft(outcomes, n, memory, addr, retries);
      AccountsNothing(addr, retries);
    } else {
      var count := Chunk(addr, |data|);
      TransferStep(outcomes, n, memory, addr, data, retries);
      var now := After(memory, addr, count, outcomes(n));
      if outcomes(n).rc < 0 {
        AccountsStop(outcomes(n).rc, Refused(addr, count), addr, |data|, retries);
      } else if Took(now, addr, data, count, outcomes(n)) {
        WritesThePages(outcomes, n + 1, now, Next(addr, count), data[count..], retries);
        var rest := Transfer(outcomes, n + 1, now, Next(addr, count), data[count..], retries);
        AccountsVerified(rest.rc, rest.writes, addr, |data|, retries);
      } else if retries > 0 {
        WritesThePages(outcomes, n + 1, now, addr, data, retries - 1);
        var rest := Transfer(outcomes, n + 1, now, addr, data, retries - 1);
        AccountsMismatch(rest.rc, rest.writes, addr, |data|, retries);
      } else {
        AccountsStop(-1, Mismatch(addr, count), addr, |data|, 0);
      }
    }
  }

  lemma AccountsNothing(addr: nat, retries: nat)
    ensures Accounts(0, [], addr, 0, retries)
  {
  }

  lemma AccountsStop(rc: int, w: Write, addr: nat, len: nat, retries: nat)
    requires len > 0 && w.addr == addr && w.count == Chunk(addr, len)
    requires (w.Refused? && rc < 0) || (w.Mismatch? && rc == -1 && retries == 0)
    ensures Accounts(rc, [w], addr, len, retries)
  {
  }

  // ---- the code ----

  /** A driver with a card in its reader. */
  class Driver {
    const canRead: bool
    const outcomes: nat -> Outcome
    var memory: seq<byte>
    var count: nat

    constructor (canRead: bool, outcomes: nat -> Outcome, memory: seq<byte>)
      ensures this.canRead == canRead && this.outcomes == outcomes && this.memory == memory && count == 0
    {
      this.canRead, this.outcomes, this.memory, count := canRead, outcomes, memory, 0;
    }

    method Write(addr: nat, data: seq<byte>) returns (rc: int)
      requires addr + |data| <= |memory|
      modifies this
      ensures rc == outcomes(old(count)).rc && count == old(count) + 1
      ensures memory == After(old(memory), addr, |data|, outcomes(old(count)))
    {
      rc := outcomes(count).rc;
      memory := After(memory, addr, |data|, outcomes(count));
      count := count + 1;
    }

    /** Reads back what was last written. */
    method Read(addr: nat, n: nat) returns (data: seq<byte>)
      requires addr + n <= |memory| && count > 0
      ensures data == ReadBack(memory, addr, n, outcomes(count - 1))
    {
      var o := outcomes(count - 1);
      if o.read {
        data := memory[addr..addr + n];
      } else {
        data := seq<byte>(n, i requires 0 <= i < n => o.temp(i));
      }
    }
  }

  function Retries(id: ProtocolId, len: nat): nat {
    if (id == I2CShort || id == I2CLong) && len > 1 then 2 else 1
  }

  /** The error of a write that is refused is the result. */
  lemma {:induction false} RefusalReturned(outcomes: nat -> Outcome, n: nat, memory: seq<byte>, addr: nat,
                                           data: seq<byte>, retries: nat)
    requires OnCard(memory, addr)
    ensures var r := Transfer(outcomes, n, memory, addr, data, retries);
      r.writes != [] && r.writes[|r.writes| - 1].Refused? ==> r.rc == outcomes(n + |r.writes| - 1).rc
    decreases |data|, retries
  {
    hide Transfer, After, Took, Chunk, Next;
    if data == [] {
      NothingLeft(outcomes, n, memory, addr, retries);
    } else {
      TransferStep(outcomes, n, memory, addr, data, retries);
      var count := Chunk(addr, |data|);
      var now := After(memory, addr, count, outcomes(n));
      if outcomes(n).rc >= 0 && Took(now, addr, data, count, outcomes(n)) {
        RefusalReturned(outcomes, n + 1, now, Next(addr, count), data[count..], retries);
      } else if outcomes(n).rc >= 0 && retries > 0 {
        RefusalReturned(outcomes, n + 1, now, addr, data, retries - 1);
      }
    }
  }

  /** A card on which nothing takes, one page: it is written twice, or three times over I2C if it is more
      than one byte, and then given up with -1. */
  lemma StubbornCard(outcomes: nat -> Outcome, n: nat, memory: seq<byte>, addr: nat, data: seq<byte>, id: ProtocolId)
    requires OnCard(memory, addr) && 0 < |data| && addr % 256 + |data| <= 256
    requires forall m: nat :: outcomes(m).rc >= 0 && outcomes(m).read && outcomes(m).stored(0) != data[0]
    ensures var r := Transfer(outcomes, n, memory, addr, data, Retries(id, |data|));
      r.rc == -1 && |r.writes| == if (id.I2CShort? || id.I2CLong?) && |data| > 1 then 3 else 2
  {
    StubbornFor(outcomes, n, memory, addr, data, Retries(id, |data|));
  }

  lemma {:induction false} StubbornFor(outcomes: nat -> Outcome, n: nat, memory: seq<byte>, addr: nat, data: seq<byte>,
                                       retries: nat)
    requires OnCard(memory, addr) && 0 < |data| && addr % 256 + |data| <= 256
    requires forall m: nat :: outcomes(m).rc >= 0 && outcomes(m).read && outcomes(m).stored(0) != data[0]
    ensures var r := Transfer(outcomes, n, memory, addr, data, retries); r.rc == -1 && |r.writes| == retries + 1
    decreases retries
  {
    hide Transfer, After, Took;
    TransferStep(outcomes, n, memory, addr, data, retries);
    assert Chunk(addr, |data|) == |data|;
    var now := After(memory, addr, |data|, outcomes(n));
    NotTaken(memory, addr, data, outcomes(n));
    if retries > 0 {
      StubbornFor(outcomes, n + 1, now, addr, data, retries - 1);
    }
  }

  lemma NotTaken(memory: seq<byte>, addr: nat, data: seq<byte>, o: Outcome)
    requires addr + |data| <= |memory| && data != [] && o.read && o.stored(0) != data[0]
    ensures !Took(After(memory, addr, |data|, o), addr, data, |data|, o)
  {
    var now := After(memory, addr, |data|, o);
    assert now[addr] == o.stored(0);
    assert now[addr..addr + |data|][0] == now[addr] && data[..|data|][0] == data[0];
  }

  lemma Shift(done: seq<Write>, w: Write, rest: seq<Write>)
    ensures done + ([w] + rest) == done + [w] + rest
  {
  }

  lemma TookIs(memory: seq<byte>, addr: nat, data: seq<byte>, count: nat, o: Outcome)
    requires addr + count <= |memory| && count <= |data|
    ensures Took(memory, addr, data, count, o) <==> ReadBack(memory, addr, count, o) == data[..count]
  {
  }

  /** `sync_write` */
  method Transmit(drv: Driver, id: ProtocolId, addr: nat, data: seq<byte>) returns (rc: int)
    requires OnCard(drv.memory, addr)
    modifies drv
    ensures !drv.canRead ==> rc == -4 && drv.memory == old(drv.memory) && drv.count == old(drv.count)
    ensures drv.canRead ==>
      var r := Transfer(drv.outcomes, old(drv.count), old(drv.memory), addr, data, Retries(id, |data|));
      rc == r.rc && drv.memory == r.memory && drv.count == old(drv.count) + |r.writes|
  {
    hide After, Transfer, Took, ReadBack;
    var retries: nat := 1;
    if !drv.canRead {
      return NOT_SUPPORTED;
    }
    if (id == I2CShort || id == I2CLong) && |data| > 1 {
      retries := 2;
    }
    var a: nat, left := addr, data;
    ghost var end := Transfer(drv.outcomes, drv.count, drv.memory, addr, data, retries);
    ghost var done: seq<Write>, rest := [], end;
    while left != []
      invariant OnCard(drv.memory, a) && retries >= 0
      invariant drv.count == old(drv.count) + |done|
      invariant rest == Transfer(drv.outcomes, drv.count, drv.memory, a, left, retries)
      invariant end.rc == rest.rc && end.memory == rest.memory && end.writes == done + rest.writes
      decreases |left|, retries
    {
      TransferStep(drv.outcomes, drv.count, drv.memory, a, left, retries);
      var count := PAGE - a % PAGE;
      if count > |left| {
        count := |left|;
      }
      rc := drv.Write(a, left[..count]);
      if rc < 0 {
        return rc;
      }
      var temp := drv.Read(a, count);
      TookIs(drv.memory, a, left, count, drv.outcomes(drv.count - 1));
      if left[..count] != temp {
        if retries == 0 {
          return -1;
        }
        retries := retries - 1;
        rest := Transfer(drv.outcomes, drv.count, drv.memory, a, left, retries);
        Shift(done, Mismatch(a, count), rest.writes);
        done := done + [Mismatch(a, count)];
      } else {
        rest := Transfer(drv.outcomes, drv.count, drv.memory, Next(a, count), left[count..], retries);
        Shift(done, Verified(a, count), rest.writes);
        done := done + [Verified(a, count)];
        a := (a + count) % SIZE;
        left := left[count..];
      }
    }
    NothingLeft(drv.outcomes, drv.count, drv.memory, a, retries);
    rc := 0;
  }
}
