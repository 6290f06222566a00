/** The reader's lock table (locks.c): who may use a slot, over every run of lock, unlock and
    unlock_all, and the linked list that holds the locks. */
module Locks {
  const LOCKED := -7
  const NOLOCK := -8
  const NO_MEMORY := -10

  /** Handles are `unsigned int`. */
  const HANDLES := 0x1_0000_0000

  /** A connected client: its socket, with the user it runs as. */
  class Client {
    const uid: int

    constructor (uid: int)
      ensures this.uid == uid
    {
      this.uid := uid;
    }
  }

  datatype Lock = Lock(slot: nat, uid: int, handle: nat, owner: Client, exclusive: bool)

  /** The locks, newest first, and the next handle. */
  datatype Table = Table(locks: seq<Lock>, next: nat)

  // ---- what each operation does ----

  /** Whether `l` stands in the way of `sock` locking `slot`. */
  predicate Blocks(l: Lock, sock: Client, slot: nat, exclusive: bool) {
    l.slot == slot && l.owner != sock && (l.exclusive || exclusive || l.uid != sock.uid)
  }

  predicate Conflict(locks: seq<Lock>, sock: Client, slot: nat, exclusive: bool) {
    exists l :: l in locks && Blocks(l, sock, slot, exclusive)
  }

  predicate Names(l: Lock, sock: Client, slot: nat, handle: nat) {
    l.owner == sock && l.slot == slot && l.handle == handle
  }

  function Naming(sock: Client, slot: nat, handle: nat): Lock -> bool {
    (l: Lock) => Names(l, sock, slot, handle)
  }

  function OfOthers(sock: Client): Lock -> bool {
    (l: Lock) => l.owner != sock
  }

  function At(slot: nat): Lock -> bool {
    (l: Lock) => l.slot == slot
  }

  /** The locks that satisfy `keep`, in their order. */
  function Only(locks: seq<Lock>, keep: Lock -> bool): seq<Lock> {
    if locks == [] then [] else (if keep(locks[0]) then [locks[0]] else []) + Only(locks[1..], keep)
  }

  /** All but the first lock that `drop` names. */
  function Without(locks: seq<Lock>, drop: Lock -> bool): seq<Lock> {
    if locks == [] then [] else if drop(locks[0]) then locks[1..] else [locks[0]] + Without(locks[1..], drop)
  }

  datatype Op =
    | DoLock(sock: Client, slot: nat, exclusive: bool, memory: bool)
    | DoUnlock(sock: Client, slot: nat, handle: nat)
    | DoUnlockAll(sock: Client)

  function Granted(t: Table, sock: Client, slot: nat, exclusive: bool): Table {
    Table([Lock(slot, sock.uid, t.next, sock, exclusive)] + t.locks, (t.next + 1) % HANDLES)
  }

  /** One operation: the table after it, and what it returns. */
  function Step(t: Table, op: Op): (Table, int) {
    match op
    case DoLock(sock, slot, exclusive, memory) =>
      if Conflict(t.locks, sock, slot, exclusive) then (t, LOCKED)
      else if !memory then (t, NO_MEMORY)
      else (Granted(t, sock, slot, exclusive), 0)
    case DoUnlock(sock, slot, handle) =>
      if exists l :: l in t.locks && Names(l, sock, slot, handle)
        then (t.(locks := Without(t.locks, Naming(sock, slot, handle))), 0)
      else (t, NOLOCK)
    case DoUnlockAll(sock) => (t.(locks := Only(t.locks, OfOthers(sock))), 0)
  }

  function Run(t: Table, ops: seq<Op>): Table
    decreases |ops|
  {
    if ops == [] then t else Run(Step(t, ops[0]).0, ops[1..])
  }

  // ---- mutual exclusion ----

  /** Two locks may stand side by side: other slots, one owner, or both shared by one user. */
  predicate Compatible(l: Lock, m: Lock) {
    l.slot != m.slot || l.owner == m.owner || (!l.exclusive && !m.exclusive && l.uid == m.uid)
  }

  ghost predicate Safe(locks: seq<Lock>) {
    && (forall l, m | l in locks && m in locks :: Compatible(l, m))
    && (forall l | l in locks :: l.uid == l.owner.uid)
  }

  /** The check refuses exactly the requests that would break mutual exclusion. */
  lemma CheckIsExact(t: Table, sock: Client, slot: nat, exclusive: bool)
    requires Safe(t.locks)
    ensures Conflict(t.locks, sock, slot, exclusive) <==> !Safe(Granted(t, sock, slot, exclusive).locks)
  {
    var l := Lock(slot, sock.uid, t.next, sock, exclusive);
    var now := Granted(t, sock, slot, exclusive).locks;
    assert forall m :: m in now <==> m == l || m in t.locks;
    if Conflict(t.locks, sock, slot, exclusive) {
      var m :| m in t.locks && Blocks(m, sock, slot, exclusive);
      assert l in now && m in now && !Compatible(l, m);
    }
  }

  lemma {:induction false} OnlyMembers(locks: seq<Lock>, keep: Lock -> bool)
    ensures forall l :: l in Only(locks, keep) ==> l in locks && keep(l)
    ensures forall l :: l in locks && keep(l) ==> l in Only(locks, keep)
  {
    if locks != [] {
      OnlyMembers(locks[1..], keep);
      assert forall l :: l in locks <==> l == locks[0] || l in locks[1..];
    }
  }

  lemma {:induction false} WithoutMembers(locks: seq<Lock>, drop: Lock -> bool)
    ensures forall l :: l in Without(locks, drop) ==> l in locks
    ensures forall l :: l in locks && !drop(l) ==> l in Without(locks, drop)
  {
    if locks != [] {
      WithoutMembers(locks[1..], drop);
      assert forall l :: l in locks <==> l == locks[0] || l in locks[1..];
    }
  }

  lemma StepKeepsSafe(t: Table, op: Op)
    requires Safe(t.locks)
    ensures Safe(Step(t, op).0.locks)
  {
    match op
    case DoLock(sock, slot, exclusive, memory) => CheckIsExact(t, sock, slot, exclusive);
    case DoUnlock(sock, slot, handle) => WithoutMembers(t.locks, Naming(sock, slot, handle));
    case DoUnlockAll(sock) => OnlyMembers(t.locks, OfOthers(sock));
  }

  /** Over every run from the empty table: two locks on one slot with different owners are both
      shared and have the same user. */
  lemma {:induction false} RunKeepsSafe(t: Table, ops: seq<Op>)
    requires Safe(t.locks)
    ensures Safe(Run(t, ops).locks)
    decreases |ops|
  {
    if ops != [] {
      StepKeepsSafe(t, ops[0]);
      RunKeepsSafe(Step(t, ops[0]).0, ops[1..]);
    }
  }

  // ---- an exclusive holder ----

  predicate By(op: Op, sock: Client) {
    op.sock == sock
  }

  function OnSlot(locks: seq<Lock>, slot: nat): seq<Lock> {
    Only(locks, At(slot))
  }

  lemma {:induction false} OnlySkips(locks: seq<Lock>, keep: Lock -> bool, also: Lock -> bool)
    requires forall l :: l in locks && also(l) ==> keep(l)
    ensures Only(Only(locks, keep), also) == Only(locks, also)
  {
    if locks != [] {
      OnlySkips(locks[1..], keep, also);
      var rest := Only(locks[1..], keep);
      if keep(locks[0]) {
        assert Only(locks, keep)[1..] == rest;
      } else {
        assert Only(locks, keep) == rest;
        assert Only(locks, also) == Only(locks[1..], also);
      }
    }
  }

  lemma {:induction false} WithoutSkips(locks: seq<Lock>, drop: Lock -> bool, also: Lock -> bool)
    requires forall l :: l in locks && drop(l) ==> !also(l)
    ensures Only(Without(locks, drop), also) == Only(locks, also)
  {
    if locks != [] && !drop(locks[0]) {
      WithoutSkips(locks[1..], drop, also);
      assert Without(locks, drop)[1..] == Without(locks[1..], drop);
    }
  }

  /** While `holder` has an exclusive lock on the slot, what another client does leaves the locks on
      that slot as they are, and is refused if it was about that slot. */
  lemma StepOfOther(t: Table, op: Op, l: Lock)
    requires Safe(t.locks) && l in t.locks && l.exclusive && !By(op, l.owner)
    ensures var (n, rc) := Step(t, op);
      && l in n.locks && OnSlot(n.locks, l.slot) == OnSlot(t.locks, l.slot)
      && (op.DoLock? && op.slot == l.slot ==> rc == LOCKED)
      && (op.DoUnlock? && op.slot == l.slot ==> rc == NOLOCK)
  {
    var onSlot := At(l.slot);
    assert forall m | m in t.locks && m.slot == l.slot :: Compatible(l, m) && m.owner == l.owner;
    match op
    case DoLock(sock, slot, exclusive, memory) =>
      if slot == l.slot {
        assert Blocks(l, sock, slot, exclusive);
      } else {
        assert Granted(t, sock, slot, exclusive).locks[1..] == t.locks;
      }
    case DoUnlock(sock, slot, handle) =>
      var drop := Naming(sock, slot, handle);
      WithoutMembers(t.locks, drop);
      WithoutSkips(t.locks, drop, onSlot);
    case DoUnlockAll(sock) =>
      var keep := OfOthers(sock);
      OnlyMembers(t.locks, keep);
      OnlySkips(t.locks, keep, onSlot);
  }

  /** An exclusive holder excludes every other client, however many operations they try. */
  lemma {:induction false} ExclusiveHolds(t: Table, ops: seq<Op>, l: Lock)
    requires Safe(t.locks) && l in t.locks && l.exclusive && (forall op | op in ops :: !By(op, l.owner))
    ensures l in Run(t, ops).locks && OnSlot(Run(t, ops).locks, l.slot) == OnSlot(t.locks, l.slot)
    ensures forall m | m in Run(t, ops).locks && m.slot == l.slot :: m.owner == l.owner
    decreases |ops|
  {
    if ops == [] {
      assert forall m | m in t.locks && m.slot == l.slot :: Compatible(l, m);
    } else {
      StepOfOther(t, ops[0], l);
      StepKeepsSafe(t, ops[0]);
      ExclusiveHolds(Step(t, ops[0]).0, ops[1..], l);
    }
  }

  // ---- unlocking ----

  /** Unlocking with the handle just granted gives back the locks that were there. */
  lemma UnlockUndoesLock(t: Table, sock: Client, slot: nat, exclusive: bool)
    requires !Conflict(t.locks, sock, slot, exclusive)
    ensures var (n, rc) := Step(t, DoLock(sock, slot, exclusive, true));
      rc == 0 && Step(n, DoUnlock(sock, slot, n.locks[0].handle)) == (n.(locks := t.locks), 0)
  {
    var n := Granted(t, sock, slot, exclusive);
    assert n.locks[1..] == t.locks && Names(n.locks[0], sock, slot, t.next) && n.locks[0] in n.locks;
  }

  ghost predicate Distinct(locks: seq<Lock>, next: nat) {
    && (forall l | l in locks :: l.handle < next)
    && (forall i, j | 0 <= i < j < |locks| :: locks[i].handle != locks[j].handle)
  }

  lemma {:induction false} WithoutDistinct(locks: seq<Lock>, drop: Lock -> bool, next: nat)
    requires Distinct(locks, next)
    ensures Distinct(Without(locks, drop), next)
  {
    if locks != [] {
      WithoutMembers(locks[1..], drop);
      assert Distinct(locks[1..], next);
      WithoutDistinct(locks[1..], drop, next);
      var rest := Without(locks[1..], drop);
      if !drop(locks[0]) {
        forall j | 0 <= j < |rest|
          ensures rest[j].handle != locks[0].handle
        {
          assert rest[j] in locks[1..];
        }
        assert Without(locks, drop) == [locks[0]] + rest;
      }
    }
  }

  lemma {:induction false} OnlyDistinct(locks: seq<Lock>, keep: Lock -> bool, next: nat)
    requires Distinct(locks, next)
    ensures Distinct(Only(locks, keep), next)
  {
    if locks != [] {
      OnlyMembers(locks[1..], keep);
      assert Distinct(locks[1..], next);
      OnlyDistinct(locks[1..], keep, next);
      var rest := Only(locks[1..], keep);
      forall j | 0 <= j < |rest|
        ensures rest[j].handle != locks[0].handle
      {
        assert rest[j] in locks[1..];
      }
    }
  }

  /** Until the handles run out, each live lock has its own, so that an unlock removes exactly the
      lock its handle was granted for. */
  lemma {:induction false} RunKeepsDistinct(t: Table, ops: seq<Op>)
    requires Distinct(t.locks, t.next) && t.next + |ops| < HANDLES
    ensures Distinct(Run(t, ops).locks, Run(t, ops).next)
    decreases |ops|
  {
    if ops != [] {
      var n := Step(t, ops[0]).0;
      match ops[0] {
        case DoLock(sock, slot, exclusive, memory) =>
        case DoUnlock(sock, slot, handle) => WithoutDistinct(t.locks, Naming(sock, slot, handle), t.next);
        case DoUnlockAll(sock) => OnlyDistinct(t.locks, OfOthers(sock), t.next);
      }
      RunKeepsDistinct(n, ops[1..]);
    }
  }

  /** At most one lock has this owner, slot and handle. */
  predicate NamesOne(locks: seq<Lock>, sock: Client, slot: nat, handle: nat) {
    forall i, j | 0 <= i < j < |locks| :: !Names(locks[i], sock, slot, handle) || !Names(locks[j], sock, slot, handle)
  }

  /** An unlock removes exactly the locks it names if and only if there is at most one, of whichever
      handles. */
  lemma {:induction false} UnlockIsExact(locks: seq<Lock>, sock: Client, slot: nat, handle: nat)
    ensures Without(locks, Naming(sock, slot, handle)) == Only(locks, NotNaming(sock, slot, handle))
      <==> NamesOne(locks, sock, slot, handle)
  {
    if locks != [] {
      var rest := locks[1..];
      if Names(locks[0], sock, slot, handle) {
        OnlyAll(rest, NotNaming(sock, slot, handle));
        if i :| 0 <= i < |rest| && Names(rest[i], sock, slot, handle) {
          assert !NamesOne(locks, sock, slot, handle) by {
            assert Names(locks[0], sock, slot, handle) && Names(locks[i + 1], sock, slot, handle);
          }
        }
      } else {
        UnlockIsExact(rest, sock, slot, handle);
        NamesOneLater(locks, sock, slot, handle);
        assert ([locks[0]] + Without(rest, Naming(sock, slot, handle)))[1..] ==
          Without(rest, Naming(sock, slot, handle));
        assert ([locks[0]] + Only(rest, NotNaming(sock, slot, handle)))[1..] ==
          Only(rest, NotNaming(sock, slot, handle));
      }
    }
  }

  lemma NamesOneLater(locks: seq<Lock>, sock: Client, slot: nat, handle: nat)
    requires locks != [] && !Names(locks[0], sock, slot, handle)
    ensures NamesOne(locks, sock, slot, handle) <==> NamesOne(locks[1..], sock, slot, handle)
  {
    var rest := locks[1..];
    if NamesOne(locks, sock, slot, handle) {
      forall i, j | 0 <= i < j < |rest|
        ensures !Names(rest[i], sock, slot, handle) || !Names(rest[j], sock, slot, handle)
      {
        assert rest[i] == locks[i + 1] && rest[j] == locks[j + 1];
      }
    } else {
      var i, j :| 0 <= i < j < |locks| && Names(locks[i], sock, slot, handle) && Names(locks[j], sock, slot, handle);
      assert rest[i - 1] == locks[i] && rest[j - 1] == locks[j];
    }
  }

  /** With handles of their own, as locks have until the handles run out, each is named alone. */
  lemma DistinctNamesOne(locks: seq<Lock>, next: nat, sock: Client, slot: nat, handle: nat)
    requires Distinct(locks, next)
    ensures NamesOne(locks, sock, slot, handle)
  {
  }

  /** Once they have run out, a client that still holds the lock with the next handle can be granted
      another with it: then an unlock leaves one of the two. */
  lemma HandleTwice(t: Table, sock: Client, slot: nat, exclusive: bool, l: Lock)
    requires Safe(t.locks) && l in t.locks && Names(l, sock, slot, t.next)
    ensures !Conflict(t.locks, sock, slot, exclusive) ==>
      var now := Step(t, DoLock(sock, slot, exclusive, true)).0.locks;
      !NamesOne(now, sock, slot, t.next) && Without(now, Naming(sock, slot, t.next)) == t.locks
  {
    var i :| 0 <= i < |t.locks| && t.locks[i] == l;
    var now := Granted(t, sock, slot, exclusive).locks;
    assert now[1..] == t.locks && now[i + 1] == l;
    assert Names(now[0], sock, slot, t.next) && Names(now[i + 1], sock, slot, t.next);
  }

  function NotNaming(sock: Client, slot: nat, handle: nat): Lock -> bool {
    (l: Lock) => !Names(l, sock, slot, handle)
  }

  lemma {:induction false} OnlyAll(locks: seq<Lock>, keep: Lock -> bool)
    ensures |Only(locks, keep)| <= |locks|
    ensures Only(locks, keep) == locks <==> forall i | 0 <= i < |locks| :: keep(locks[i])
  {
    if locks != [] {
      OnlyAll(locks[1..], keep);
      if keep(locks[0]) {
        assert ([locks[0]] + Only(locks[1..], keep))[1..] == Only(locks[1..], keep);
      }
    }
  }

  // ---- what is granted, and what a client leaves behind ----

  /** `a` is `b` with some left out. */
  ghost predicate Among(a: seq<Lock>, b: seq<Lock>)
    decreases |b|
  {
    a == [] || (b != [] && ((a[0] == b[0] && Among(a[1..], b[1..])) || Among(a, b[1..])))
  }

  /** Of the locks on the slot, which other clients hold, none is exclusive or of another user, and for
      an exclusive lock there are none. */
  ghost predicate Free(t: Table, sock: Client, slot: nat, exclusive: bool) {
    forall l | l in t.locks && l.slot == slot && l.owner != sock :: !exclusive && !l.exclusive && l.uid == sock.uid
  }

  /** A lock is granted if and only if the slot is free for it and there is memory; the client then
      holds it under the handle returned, and everything else stays. */
  lemma LockGrants(t: Table, sock: Client, slot: nat, exclusive: bool, memory: bool)
    ensures var (n, rc) := Step(t, DoLock(sock, slot, exclusive, memory));
      && rc == (if !Free(t, sock, slot, exclusive) then -7 else if !memory then -10 else 0)
      && (rc != 0 ==> n == t)
      && (rc == 0 ==>
            && |n.locks| == |t.locks| + 1 && n.locks[1..] == t.locks && n.next == (t.next + 1) % 0x1_0000_0000
            && var l := n.locks[0];
               && l.owner == sock && l.slot == slot && l.uid == sock.uid && l.handle == t.next
               && (l.exclusive <==> exclusive))
  {
  }

  /** An unlock succeeds if and only if the client holds a lock with that handle on that slot. */
  lemma UnlockSucceeds(t: Table, sock: Client, slot: nat, handle: nat)
    ensures var (n, rc) := Step(t, DoUnlock(sock, slot, handle));
      && rc == (if exists l :: l in t.locks && l.owner == sock && l.slot == slot && l.handle == handle then 0 else -8)
      && n.next == t.next && |n.locks| == |t.locks| - if rc == 0 then 1 else 0
  {
    hide Without;
    if exists l :: l in t.locks && l.owner == sock && l.slot == slot && l.handle == handle {
      var l :| l in t.locks && l.owner == sock && l.slot == slot && l.handle == handle;
      assert Names(l, sock, slot, handle);
      WithoutSize(t.locks, Naming(sock, slot, handle));
    }
  }

  lemma {:induction false} WithoutSize(locks: seq<Lock>, drop: Lock -> bool)
    requires exists l :: l in locks && drop(l)
    ensures |Without(locks, drop)| == |locks| - 1
  {
    if !drop(locks[0]) {
      assert forall l :: l in locks <==> l == locks[0] || l in locks[1..];
      WithoutSize(locks[1..], drop);
    }
  }

  /** After `unlock_all` the client holds nothing, and the locks of the others are all there, in their
      order and as often as before, with the same next handle. */
  lemma UnlockAllExactly(t: Table, sock: Client)
    ensures var (n, rc) := Step(t, DoUnlockAll(sock));
      && rc == 0 && n.next == t.next && Among(n.locks, t.locks)
      && (forall l | l in n.locks :: l.owner != sock)
      && (forall l: Lock | l.owner != sock :: multiset(n.locks)[l] == multiset(t.locks)[l])
  {
    OnlyMembers(t.locks, OfOthers(sock));
    OnlyAmong(t.locks, OfOthers(sock));
  }

  lemma {:induction false} OnlyAmong(locks: seq<Lock>, keep: Lock -> bool)
    ensures Among(Only(locks, keep), locks)
    ensures forall l | keep(l) :: multiset(Only(locks, keep))[l] == multiset(locks)[l]
  {
    if locks != [] {
      OnlyAmong(locks[1..], keep);
      assert locks == [locks[0]] + locks[1..];
      if keep(locks[0]) {
        assert ([locks[0]] + Only(locks[1..], keep))[1..] == Only(locks[1..], keep);
      } else {
        assert [] + Only(locks[1..], keep) == Only(locks[1..], keep);
      }
    }
  }

  /** Once a client has gone, its locks stand in nobody's way: another's lock is granted if and only if
      no third client's stands against it. */
  lemma SlotIsFreed(t: Table, gone: Client, sock: Client, slot: nat, exclusive: bool)
    ensures var n := Step(t, DoUnlockAll(gone)).0;
      Step(n, DoLock(sock, slot, exclusive, true)).1 == 0 <==>
        forall l | l in t.locks && l.slot == slot && l.owner != sock && l.owner != gone ::
          !exclusive && !l.exclusive && l.uid == sock.uid
  {
    var n := Step(t, DoUnlockAll(gone)).0;
    OnlyMembers(t.locks, OfOthers(gone));
    LockGrants(n, sock, slot, exclusive, true);
  }

  /** And so it stays over every run in which that client does not lock again. */
  lemma {:induction false} GoneStaysGone(t: Table, gone: Client, ops: seq<Op>)
    requires forall op | op in ops :: !(op.DoLock? && op.sock == gone)
    ensures forall l | l in Run(Step(t, DoUnlockAll(gone)).0, ops).locks :: l.owner != gone
  {
    OnlyMembers(t.locks, OfOthers(gone));
    NothingGained(Step(t, DoUnlockAll(gone)).0, gone, ops);
  }

  lemma {:induction false} NothingGained(t: Table, gone: Client, ops: seq<Op>)
    requires (forall op | op in ops :: !(op.DoLock? && op.sock == gone)) && forall l | l in t.locks :: l.owner != gone
    ensures forall l | l in Run(t, ops).locks :: l.owner != gone
    decreases |ops|
  {
    if ops != [] {
      match ops[0] {
        case DoLock(sock, slot, exclusive, memory) =>
        case DoUnlock(sock, slot, handle) => WithoutMembers(t.locks, Naming(sock, slot, handle));
        case DoUnlockAll(sock) => OnlyMembers(t.locks, OfOthers(sock));
      }
      NothingGained(Step(t, ops[0]).0, gone, ops[1..]);
    }
  }

  // ---- the linked list ----

  /** `ct_lock_t` */
  class Node {
    var next: Node?
    const lock: Lock

    constructor (lock: Lock, next: Node?)
      ensures this.lock == lock && this.next == next
    {
      this.lock, this.next := lock, next;
    }
  }

  /** `locks` and `lock_handle` */
  class LockTable {
    var locks: Node?
    var handle: nat
    /** The list's nodes, in order. */
    ghost var nodes: seq<Node>

    ghost predicate Valid()
      reads this, nodes
    {
      && handle < HANDLES && locks == NodeAt(0)
      && (forall i, j | 0 <= i < j < |nodes| :: nodes[i] != nodes[j])
      && (forall i | 0 <= i < |nodes| :: nodes[i].next == NodeAt(i + 1))
    }

    ghost function NodeAt(i: nat): Node?
      reads this
    {
      if i < |nodes| then nodes[i] else null
    }

    ghost function Contents(): Table
      reads this
    {
      Table(LocksOf(nodes), handle)
    }

    constructor ()
      ensures Valid() && Contents() == Table([], 0)
    {
      locks, handle, nodes := null, 0, [];
    }

    /** `ifdhandler_lock`; `memory` is whether the allocation succeeds. */
    method LockSlot(sock: Client, slot: nat, exclusive: bool, memory: bool) returns (rc: int, res: nat)
      requires Valid()
      modifies this
      ensures Valid() && (Contents(), rc) == Step(old(Contents()), DoLock(sock, slot, exclusive, memory))
      ensures rc == 0 ==> res == old(handle)
    {
      res := 0;
      rc := CheckLock(sock, slot, exclusive);
      if rc < 0 {
        return;
      }
      if !memory {
        return NO_MEMORY, 0;
      }
      var l := new Node(Lock(slot, sock.uid, handle, sock, exclusive), locks);
      res := handle;
      handle := (handle + 1) % HANDLES;
      locks := l;
      nodes := [l] + nodes;
      assert LocksOf(nodes) == [l.lock] + LocksOf(nodes[1..]);
    }

    /** `ifdhandler_check_lock` */
    method CheckLock(sock: Client, slot: nat, exclusive: bool) returns (rc: int)
      requires Valid()
      ensures rc == if Conflict(Contents().locks, sock, slot, exclusive) then LOCKED else 0
    {
      var l := locks;
      ghost var i := 0;
      while l != null
        invariant 0 <= i <= |nodes| && l == NodeAt(i)
        invariant forall k | 0 <= k < i :: !Blocks(nodes[k].lock, sock, slot, exclusive)
        decreases |nodes| - i
      {
        if l.lock.slot == slot && l.lock.owner != sock {
          if l.lock.exclusive || exclusive || l.lock.uid != sock.uid {
            assert Contents().locks[i] == l.lock && Blocks(l.lock, sock, slot, exclusive);
            assert l.lock in Contents().locks;
            return LOCKED;
          }
        }
        l := l.next;
        i := i + 1;
      }
      assert forall m | m in Contents().locks :: !Blocks(m, sock, slot, exclusive);
      rc := 0;
    }

    /** `*lp = l->next`: `prev` is the node whose `next` points at `l`, none for the head. */
    method Unlink(prev: Node?, l: Node, ghost i: nat)
      requires Valid() && i < |nodes| && l == nodes[i] && prev == if i == 0 then null else nodes[i - 1]
      modifies this`locks, this`nodes, prev
      ensures Valid() && nodes == old(nodes[..i] + nodes[i + 1..]) && l.next == old(l.next)
    {
      if prev == null {
        locks := l.next;
      } else {
        assert prev in nodes;
        prev.next := l.next;
      }
      nodes := nodes[..i] + nodes[i + 1..];
    }

    /** `ifdhandler_unlock` */
    method UnlockSlot(sock: Client, slot: nat, handle: nat) returns (rc: int)
      requires Valid()
      modifies this, nodes
      ensures Valid() && (Contents(), rc) == Step(old(Contents()), DoUnlock(sock, slot, handle))
    {
      var prev: Node?, l := null, locks;
      ghost var i := 0;
      while l != null
        invariant 0 <= i <= |nodes| && l == NodeAt(i) && prev == (if i == 0 then null else nodes[i - 1])
        invariant forall k | 0 <= k < i :: !Names(nodes[k].lock, sock, slot, handle)
        decreases |nodes| - i
      {
        if l.lock.owner == sock && l.lock.slot == slot && l.lock.handle == handle {
          WithoutAt(nodes, i, Naming(sock, slot, handle));
          assert LocksOf(nodes)[i] == l.lock && l.lock in LocksOf(nodes);
          Unlink(prev, l, i);
          return 0;
        }
        prev, l := l, l.next;
        i := i + 1;
      }
      assert forall m | m in LocksOf(nodes) :: !Names(m, sock, slot, handle);
      rc := NOLOCK;
    }

    /** Where a walk over the list is. */
    ghost predicate At(prev: Node?, l: Node?, i: nat)
      reads this
    {
      i <= |nodes| && l == NodeAt(i) && prev == if i == 0 then null else nodes[i - 1]
    }

    /** One round of `ifdhandler_unlock_all`: drop the client's lock or go past another's. */
    method DropOrPass(sock: Client, prev: Node?, l: Node, ghost i: nat)
      returns (prev': Node?, l': Node?, ghost i': nat)
      requires Valid() && At(prev, l, i)
      modifies this`locks, this`nodes, prev
      ensures Valid() && At(prev', l', i') && |nodes| - i' == |old(nodes)| - i - 1
      ensures forall k | 0 <= k < |nodes| :: nodes[k] in old(nodes)
      ensures Only(LocksOf(nodes), OfOthers(sock)) == old(Only(LocksOf(nodes), OfOthers(sock)))
      ensures nodes[..i'] == old(nodes[..i]) + if l.lock.owner == sock then [] else [l]
    {
      hide Only, LocksOf;
      prev', l', i' := prev, l, i;
      ghost var all := nodes;
      if l.lock.owner == sock {
        OnlyDrops(nodes, i, OfOthers(sock));
        Unlink(prev, l, i);
        l' := l.next;
        assert nodes[..i] == all[..i];
      } else {
        Advances(prev, l, i);
        prev', l' := l, l.next;
        i' := i + 1;
      }
    }

    lemma Advances(prev: Node?, l: Node, i: nat)
      requires Valid() && At(prev, l, i)
      ensures At(l, l.next, i + 1) && nodes[..i + 1] == nodes[..i] + [l]
    {
    }

    /** `ifdhandler_unlock_all` */
    method UnlockAll(sock: Client)
      requires Valid()
      modifies this, nodes
      ensures Valid() && Contents() == Step(old(Contents()), DoUnlockAll(sock)).0
    {
      hide Only, LocksOf, Valid;
      var prev: Node?, l := null, locks;
      ghost var i: nat := 0;
      ghost var all := nodes;
      HeadIsFirst();
      while l != null
        invariant Valid() && At(prev, l, i) && handle == old(handle)
        invariant forall k | 0 <= k < |nodes| :: nodes[k] in all
        invariant forall n | n in nodes[..i] :: n.lock.owner != sock
        invariant Only(LocksOf(nodes), OfOthers(sock)) == Only(LocksOf(all), OfOthers(sock))
        decreases |nodes| - i
      {
        prev, l, i := DropOrPass(sock, prev, l, i);
      }
      assert At(prev, null, i) && nodes[..i] == nodes;
      AllKept(nodes, OfOthers(sock));
    }

    lemma HeadIsFirst()
      requires Valid()
      ensures At(null, locks, 0)
    {
    }
  }

  ghost function LocksOf(nodes: seq<Node>): seq<Lock> {
    seq(|nodes|, i requires 0 <= i < |nodes| => nodes[i].lock)
  }

  lemma AllKept(nodes: seq<Node>, keep: Lock -> bool)
    requires forall n | n in nodes :: keep(n.lock)
    ensures Only(LocksOf(nodes), keep) == LocksOf(nodes)
  {
    OnlyAll(LocksOf(nodes), keep);
  }

  lemma LocksOfFirst(nodes: seq<Node>)
    requires nodes != []
    ensures LocksOf(nodes) == [nodes[0].lock] + LocksOf(nodes[1..])
  {
  }

  /** Taking out the first node that is named. */
  lemma {:induction false} WithoutAt(nodes: seq<Node>, i: nat, drop: Lock -> bool)
    requires i < |nodes| && drop(nodes[i].lock) && forall k | 0 <= k < i :: !drop(nodes[k].lock)
    ensures Without(LocksOf(nodes), drop) == LocksOf(nodes[..i] + nodes[i + 1..])
  {
    hide LocksOf;
    LocksOfFirst(nodes);
    var rest := nodes[1..];
    if i == 0 {
      assert nodes[..0] + nodes[1..] == rest;
    } else {
      WithoutAt(rest, i - 1, drop);
      var left := rest[..i - 1] + rest[i..];
      assert nodes[..i] + nodes[i + 1..] == [nodes[0]] + left;
      LocksOfFirst([nodes[0]] + left);
      assert ([nodes[0]] + left)[1..] == left;
    }
  }

  /** Taking out a node that is not kept anyway. */
  lemma {:induction false} OnlyDrops(nodes: seq<Node>, i: nat, keep: Lock -> bool)
    requires i < |nodes| && !keep(nodes[i].lock)
    ensures Only(LocksOf(nodes[..i] + nodes[i + 1..]), keep) == Only(LocksOf(nodes), keep)
  {
    assert LocksOf(nodes)[1..] == LocksOf(nodes[1..]);
    var less := nodes[..i] + nodes[i + 1..];
    if i == 0 {
      assert less == nodes[1..];
    } else {
      OnlyDrops(nodes[1..], i - 1, keep);
      assert less[1..] == nodes[1..][..i - 1] + nodes[1..][i..];
      assert LocksOf(less)[1..] == LocksOf(less[1..]);
    }
  }
}
