/** The compacting byte buffer of buffer.c, as a queue of bytes. */
module Buffer {
  import opened Bytes

  /** What a buffer stands for: its contents, the gap before them, and the size of its memory. */
  datatype Queue = Queue(contents: seq<byte>, gap: nat, size: nat, overrun: bool)

  predicate Fits(q: Queue) {
    q.gap + |q.contents| <= q.size
  }

  function Tailroom(q: Queue): nat
    requires Fits(q)
  {
    q.size - q.gap - |q.contents|
  }

  function Compacted(q: Queue): Queue {
    q.(gap := 0)
  }

  /** The queue after a put, and whether the bytes were accepted. */
  function Put(q: Queue, data: seq<byte>): (r: (Queue, bool))
    requires Fits(q)
    ensures Fits(r.0)
  {
    if |data| <= Tailroom(q) then (q.(contents := q.contents + data), true)
    else if |q.contents| + |data| <= q.size then (Compacted(q).(contents := q.contents + data), true)
    else (Compacted(q).(overrun := true), false)
  }

  /** The queue after a get of `n` bytes, and the bytes if there were that many. */
  function Get(q: Queue, n: nat): (r: (Queue, seq<byte>, bool))
    requires Fits(q)
    ensures Fits(r.0)
  {
    if n > |q.contents| then (q, [], false)
    else (q.(contents := q.contents[n..], gap := q.gap + n), q.contents[..n], true)
  }

  /** The queue after bytes were pushed back, if the gap takes them. */
  function Push(q: Queue, data: seq<byte>): (r: (Queue, bool))
    requires Fits(q)
    ensures Fits(r.0)
  {
    if |data| > q.gap then (q, false)
    else (q.(contents := data + q.contents, gap := q.gap - |data|), true)
  }

  const NEWLINE: byte := 10

  /** Everything before the first newline. */
  function FirstLine(s: seq<byte>): seq<byte> {
    if s == [] || s[0] == NEWLINE then [] else [s[0]] + FirstLine(s[1..])
  }

  /** How much of `s` the first line and its newline take up. */
  function LineLength(s: seq<byte>): nat {
    if s == [] then 0 else if s[0] == NEWLINE then 1 else 1 + LineLength(s[1..])
  }

  lemma {:induction false} LineFacts(s: seq<byte>)
    ensures LineLength(s) <= |s| && |FirstLine(s)| <= LineLength(s) && FirstLine(s) <= s
    ensures NEWLINE !in FirstLine(s)
    ensures LineLength(s) == if |FirstLine(s)| < |s| then |FirstLine(s)| + 1 else |s|
    ensures |FirstLine(s)| < |s| ==> s[|FirstLine(s)|] == NEWLINE
  {
    if s == [] || s[0] == NEWLINE {
    } else {
      LineFacts(s[1..]);
      assert s == [s[0]] + s[1..];
    }
  }

  /** The first line as far as `size` bytes take it, the NUL included, and the queue after it; a size
      of 0 wraps around and takes all of it. */
  function Gets(q: Queue, size: nat): (r: (Queue, seq<byte>))
    requires Fits(q)
    ensures Fits(r.0)
  {
    LineFacts(q.contents);
    var n := LineLength(q.contents);
    var line := FirstLine(q.contents);
    (q.(contents := q.contents[n..], gap := q.gap + n), if size == 0 then line else line[..Min(|line|, size - 1)])
  }

  // ---- laws of the queue ----

  /** A put fails exactly when contents and data together exceed the memory, and then keeps the contents. */
  lemma PutLaw(q: Queue, data: seq<byte>)
    requires Fits(q)
    ensures var (r, ok) := Put(q, data);
      && (ok <==> |q.contents| + |data| <= q.size)
      && r.contents == (if ok then q.contents + data else q.contents)
      && r.size == q.size && (r.overrun <==> q.overrun || !ok)
      && r.gap == if q.gap + |q.contents| + |data| <= q.size then q.gap else 0
  {
  }

  /** A get fails exactly when there are not as many bytes, a push exactly when the gap does not take its
      bytes; both then change nothing. A get takes from the head, in order. */
  lemma GetAndPushLaw(q: Queue, n: nat, data: seq<byte>)
    requires Fits(q)
    ensures var (r, out, ok) := Get(q, n);
      && (ok <==> n <= |q.contents|) && (!ok ==> r == q && out == [])
      && (ok ==> |out| == n && out + r.contents == q.contents && r.gap == q.gap + n && r.size == q.size)
      && r.overrun == q.overrun
    ensures var (r, ok) := Push(q, data);
      && (ok <==> |data| <= q.gap) && (!ok ==> r == q)
      && (ok ==> r.contents == data + q.contents && r.gap == q.gap - |data|) && r.overrun == q.overrun
    ensures Compacted(q).contents == q.contents && Compacted(q).gap == 0 && Compacted(q).overrun == q.overrun
    ensures Tailroom(Compacted(q)) == q.size - |q.contents|
  {
  }

  /** Pushing back the bytes a get took undoes the get. */
  lemma PushUndoesGet(q: Queue, n: nat)
    requires Fits(q) && n <= |q.contents|
    ensures var (r, bytes, _) := Get(q, n);
      Push(r, bytes) == (q, true)
  {
    assert q.contents[..n] + q.contents[n..] == q.contents;
  }

  /** However small the caller's buffer, gets consumes exactly the first line with its newline:
      what is left is what follows the newline. */
  lemma GetsTakesOneLine(q: Queue, size: nat)
    requires Fits(q)
    ensures var (r, line) := Gets(q, size);
      var first := FirstLine(q.contents);
      && (if first == q.contents then r.contents == []
          else q.contents == first + [NEWLINE] + r.contents)
      && NEWLINE !in first && line <= first && (line == first <==> |first| < size || size == 0)
  {
    hide FirstLine, LineLength;
    LineFacts(q.contents);
    var first := FirstLine(q.contents);
    assert first[..|first|] == first;
    if |first| < |q.contents| {
      assert q.contents == first + q.contents[|first|..];
      assert q.contents[|first|..] == [NEWLINE] + q.contents[|first| + 1..];
    }
  }

  datatype Op = OpGet(n: nat) | OpPut(data: seq<byte>) | OpPush(data: seq<byte>) | OpGets(size: nat) | OpCompact

  function Step(q: Queue, op: Op): (r: Queue)
    requires Fits(q)
    ensures Fits(r)
  {
    match op
    case OpGet(n) => Get(q, n).0
    case OpPut(data) => Put(q, data).0
    case OpPush(data) => Push(q, data).0
    case OpGets(size) => Gets(q, size).0
    case OpCompact => Compacted(q)
  }

  /** What an operation adds at the tail, and what it takes off the head. */
  function Added(q: Queue, op: Op): seq<byte>
    requires Fits(q)
  {
    if op.OpPut? && |q.contents| + |op.data| <= q.size then op.data else []
  }

  function Taken(q: Queue, op: Op): seq<byte>
    requires Fits(q)
  {
    match op
    case OpGet(n) => Get(q, n).1
    case OpGets(_) =>
      LineFacts(q.contents);
      q.contents[..LineLength(q.contents)]
    case _ => []
  }

  function Run(q: Queue, ops: seq<Op>): (r: Queue)
    requires Fits(q)
    ensures Fits(r)
    decreases |ops|
  {
    if ops == [] then q else Run(Step(q, ops[0]), ops[1..])
  }

  function AllAdded(q: Queue, ops: seq<Op>): seq<byte>
    requires Fits(q)
    decreases |ops|
  {
    if ops == [] then [] else Added(q, ops[0]) + AllAdded(Step(q, ops[0]), ops[1..])
  }

  predicate IsEndOf(tail: seq<byte>, s: seq<byte>) {
    |tail| <= |s| && s[|s| - |tail|..] == tail
  }

  /** Whether an operation is no push, or one that is refused, or one that gives back the bytes taken
      last; `out` are the bytes taken and not given back. */
  predicate GivesBack(q: Queue, out: seq<byte>, op: Op) {
    op.OpPush? && |op.data| <= q.gap ==> IsEndOf(op.data, out)
  }

  function NetStep(q: Queue, out: seq<byte>, op: Op): seq<byte>
    requires Fits(q) && GivesBack(q, out, op)
  {
    if op.OpPush? && |op.data| <= q.gap then out[..|out| - |op.data|] else out + Taken(q, op)
  }

  predicate AllGiveBack(q: Queue, out: seq<byte>, ops: seq<Op>)
    requires Fits(q)
    decreases |ops|
  {
    ops == [] || (GivesBack(q, out, ops[0]) && AllGiveBack(Step(q, ops[0]), NetStep(q, out, ops[0]), ops[1..]))
  }

  /** What a trace has taken out in the end and not given back. */
  function Net(q: Queue, out: seq<byte>, ops: seq<Op>): seq<byte>
    requires Fits(q) && AllGiveBack(q, out, ops)
    decreases |ops|
  {
    if ops == [] then out else Net(Step(q, ops[0]), NetStep(q, out, ops[0]), ops[1..])
  }

  lemma GetsConserves(q: Queue, size: nat)
    requires Fits(q)
    ensures Taken(q, OpGets(size)) + Gets(q, size).0.contents == q.contents
  {
    LineFacts(q.contents);
    var n := LineLength(q.contents);
    assert q.contents[..n] + q.contents[n..] == q.contents;
  }

  lemma StepConserves(q: Queue, out: seq<byte>, op: Op)
    requires Fits(q) && GivesBack(q, out, op)
    ensures NetStep(q, out, op) + Step(q, op).contents == out + q.contents + Added(q, op)
  {
    hide LineLength, Gets;
    match op
    case OpGet(n) =>
      if n <= |q.contents| {
        assert q.contents[..n] + q.contents[n..] == q.contents;
        assert out + q.contents[..n] + q.contents[n..] == out + q.contents;
      }
    case OpGets(size) =>
      GetsConserves(q, size);
      assert out + Taken(q, op) + Gets(q, size).0.contents == out + (Taken(q, op) + Gets(q, size).0.contents);
    case OpPush(data) =>
      if |data| <= q.gap {
        assert out[..|out| - |data|] + data == out;
        assert out[..|out| - |data|] + (data + q.contents) == out + q.contents;
      }
    case _ =>
      assert out + [] == out;
  }

  /** First in, first out: over any trace of get, put, gets, compact and pushes that give back what
      was taken, the bytes taken for good followed by what is still there are what was there at first
      followed by what was put in. */
  lemma {:induction false} Fifo(q: Queue, out: seq<byte>, ops: seq<Op>)
    requires Fits(q) && AllGiveBack(q, out, ops)
    ensures Net(q, out, ops) + Run(q, ops).contents == out + q.contents + AllAdded(q, ops)
    decreases |ops|
  {
    hide Step, NetStep, Added, GivesBack;
    if ops != [] {
      var r := Step(q, ops[0]);
      var next := NetStep(q, out, ops[0]);
      StepConserves(q, out, ops[0]);
      Fifo(r, next, ops[1..]);
      calc {
        Net(q, out, ops) + Run(q, ops).contents;
        next + r.contents + AllAdded(r, ops[1..]);
        out + q.contents + Added(q, ops[0]) + AllAdded(r, ops[1..]);
        out + q.contents + AllAdded(q, ops);
      }
    }
  }

  // ---- the buffer in memory ----

  class CtBuf {
    var base: array<byte>
    var head: nat
    var tail: nat
    var overrun: bool

    ghost predicate Valid()
      reads this
    {
      head <= tail <= base.Length
    }

    /** What the buffer stands for. */
    ghost function View(): (q: Queue)
      reads this, base
      requires Valid()
      ensures Fits(q)
    {
      Queue(base[head..tail], head, base.Length, overrun)
    }

    /** `ct_buf_init` */
    constructor Init(mem: array<byte>)
      ensures Valid() && base == mem && View() == Queue([], 0, mem.Length, false)
    {
      base, head, tail, overrun := mem, 0, 0, false;
    }

    /** `ct_buf_set` */
    constructor Set(mem: array<byte>)
      ensures Valid() && base == mem && View() == Queue(mem[..], 0, mem.Length, false)
    {
      base, head, tail, overrun := mem, 0, mem.Length, false;
    }

    method Clear()
      modifies this
      ensures Valid() && base == old(base) && View() == Queue([], 0, base.Length, old(overrun))
    {
      head, tail := 0, 0;
    }

    method Avail() returns (n: nat)
      requires Valid()
      ensures n == |View().contents|
    {
      n := tail - head;
    }

    method Room() returns (n: nat)
      requires Valid()
      ensures n == Tailroom(View())
    {
      n := base.Length - tail;
    }

    /** `ct_buf_compact` */
    method Compact()
      requires Valid()
      modifies this, base
      ensures Valid() && base == old(base) && View() == Compacted(old(View()))
    {
      if head == 0 {
        return;
      }
      var count := tail - head;
      forall i | 0 <= i < count {
        base[i] := base[head + i];
      }
      tail := tail - head;
      head := 0;
    }

    /** `ct_buf_get` */
    method GetBytes(len: nat) returns (rc: int, bytes: seq<byte>)
      requires Valid()
      modifies this
      ensures Valid() && base == old(base)
      ensures var (q, out, ok) := Get(old(View()), len);
        View() == q && bytes == out && rc == if ok then len else -1
    {
      if len > tail - head {
        return -1, [];
      }
      bytes := base[head..head + len];
      assert bytes == View().contents[..len];
      head := head + len;
      rc := len;
    }

    /** `ct_buf_put` */
    method PutBytes(data: seq<byte>) returns (rc: int)
      requires Valid()
      modifies this, base
      ensures Valid() && base == old(base)
      ensures var (q, ok) := Put(old(View()), data);
        View() == q && rc == if ok then |data| else -1
    {
      if |data| > base.Length - tail {
        Compact();
      }
      if |data| > base.Length - tail {
        overrun := true;
        return -1;
      }
      forall i | 0 <= i < |data| {
        base[tail + i] := data[i];
      }
      tail := tail + |data|;
      rc := |data|;
    }

    /** `ct_buf_push` */
    method PushBytes(data: seq<byte>) returns (rc: int)
      requires Valid()
      modifies this, base
      ensures Valid() && base == old(base)
      ensures var (q, ok) := Push(old(View()), data);
        View() == q && rc == if ok then |data| else -1
    {
      if head < |data| {
        return -1;
      }
      head := head - |data|;
      forall i | 0 <= i < |data| {
        base[head + i] := data[i];
      }
      rc := |data|;
    }

    /** The first loop of `ct_buf_gets`: how many bytes of the line fit. */
    method LinePrefix(size: nat) returns (n: nat)
      requires Valid()
      ensures n == if size == 0 then |FirstLine(View().contents)| else Min(|FirstLine(View().contents)|, size - 1)
    {
      ghost var s := View().contents;
      var avail := tail - head;
      var room := if size == 0 then avail else Min(size - 1, avail);
      n := 0;
      while n < room && base[head + n] != NEWLINE
        invariant 0 <= n <= room
        invariant forall k | 0 <= k < n :: s[k] != NEWLINE
      {
        n := n + 1;
      }
      LineFacts(s);
      NewlineFrom(s, n);
    }

    /** The second loop: where the line ends, starting from byte `n` of it. */
    method LineEnd(n: nat) returns (m: nat)
      requires Valid() && n <= |FirstLine(View().contents)|
      ensures m == LineLength(View().contents)
    {
      ghost var s := View().contents;
      LineFacts(s);
      var avail := tail - head;
      m := n;
      while m < avail
        invariant n <= m <= avail && m <= |FirstLine(s)|
      {
        m := m + 1;
        if base[head + m - 1] == NEWLINE {
          assert s[m - 1] == NEWLINE;
          NewlineInside(s, m - 1);
          return;
        }
        assert s[m - 1] != NEWLINE;
      }
    }

    /** Eats the line, of which `n` bytes were copied. */
    method EatLine(n: nat)
      requires Valid() && n <= |FirstLine(View().contents)|
      modifies this`head
      ensures Valid()
      ensures var q, m := old(View()), LineLength(old(View()).contents);
        m <= |q.contents| && View() == q.(contents := q.contents[m..], gap := q.gap + m)
    {
      hide LineLength, FirstLine;
      ghost var s := View().contents;
      LineFacts(s);
      var m := LineEnd(n);
      assert base[head + m..tail] == s[m..];
      head := head + m;
    }

    /** The copy of `ct_buf_gets`, with its NUL, as far as the buffer goes. */
    method CopyOut(buffer: array<byte>, n: nat) returns (overran: bool, ghost line: seq<byte>)
      requires Valid() && n <= tail - head && buffer != base
      modifies buffer
      ensures line == View().contents[..n] && (overran <==> n >= buffer.Length)
      ensures buffer[..] == if overran then line[..buffer.Length] else line + [0] + old(buffer[n + 1..])
    {
      line := base[head..head + n];
      assert line == View().contents[..n];
      forall i | 0 <= i < Min(n, buffer.Length) {
        buffer[i] := base[head + i];
      }
      overran := n >= buffer.Length;
      if !overran {
        buffer[n] := 0;
      }
    }

    /** `ct_buf_gets`: as much of the line as `size` bytes take with the NUL behind it goes to
        `buffer`; `line` names it. With a size of 0 that is all of it, and the source writes behind a
        buffer that is too small. */
    method GetLine(buffer: array<byte>, size: nat) returns (overran: bool, ghost line: seq<byte>)
      requires Valid() && size <= buffer.Length && buffer != base
      modifies this, buffer
      ensures Valid() && base == old(base)
      ensures (View(), line) == Gets(old(View()), size)
      ensures overran <==> size == 0 && |FirstLine(old(View()).contents)| >= buffer.Length
      ensures overran <==> |line| >= buffer.Length
      ensures buffer[..] == if overran then line[..buffer.Length] else line + [0] + old(buffer[|line| + 1..])
    {
      hide LineLength, FirstLine, Gets;
      ghost var q := View();
      LineFacts(q.contents);
      var n := LinePrefix(size);
      overran, line := CopyOut(buffer, n);
      GetsIs(q, size, n);
      EatLine(n);
    }
  }

  /** What `Gets` comes to when `n` bytes of the line fit. */
  lemma GetsIs(q: Queue, size: nat, n: nat)
    requires Fits(q)
    requires n == if size == 0 then |FirstLine(q.contents)| else Min(|FirstLine(q.contents)|, size - 1)
    ensures n <= |q.contents| && LineLength(q.contents) <= |q.contents|
    ensures var m := LineLength(q.contents);
      Gets(q, size) == (q.(contents := q.contents[m..], gap := q.gap + m), q.contents[..n])
  {
    hide LineLength, FirstLine;
    LineFacts(q.contents);
    var first := FirstLine(q.contents);
    assert first[..n] == q.contents[..n] && first[..|first|] == first;
  }

  lemma NewlineInside(s: seq<byte>, k: nat)
    requires k < |s| && s[k] == NEWLINE && k <= |FirstLine(s)|
    ensures k == |FirstLine(s)|
  {
    LineFacts(s);
  }

  /** A stretch without newlines lies in the first line; one that ends at a newline is all of it. */
  lemma {:induction false} NewlineFrom(s: seq<byte>, n: nat)
    requires n <= |s| && forall k | 0 <= k < n :: s[k] != NEWLINE
    ensures n <= |FirstLine(s)|
    ensures n < |s| && s[n] == NEWLINE ==> n == |FirstLine(s)|
  {
    if n > 0 {
      NewlineFrom(s[1..], n - 1);
    }
  }
}
