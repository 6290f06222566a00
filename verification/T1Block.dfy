/** T=1 blocks (proto-t1.c): protocol control byte, building, checking and receiving a block. */
module T1Block {
  import opened Bytes
  import opened Checksum

  const I_BLOCK: byte := 0x00
  const R_BLOCK: byte := 0x80
  const S_BLOCK: byte := 0xC0
  const MORE_BLOCKS: byte := 0x20
  const EDC_ERROR: byte := 0x01
  const OTHER_ERROR: byte := 0x02
  const S_RESPONSE: byte := 0x20
  const S_RESYNC: byte := 0x00
  const S_IFS: byte := 0x01
  const S_ABORT: byte := 0x02
  const S_WTX: byte := 0x03
  const BUFFER_SIZE: nat := 3 + 254 + 2

  /** Offsets in a block. */
  const PCB: nat := 1
  const LEN: nat := 2
  const DATA: nat := 3

  datatype BlockType = IBlock | RBlock | SBlock

  function TypeOf(pcb: byte): BlockType {
    match pcb / 64
    case 2 => RBlock
    case 3 => SBlock
    case _ => IBlock
  }

  function SeqOf(pcb: byte): bit {
    match TypeOf(pcb)
    case RBlock => pcb / 16 % 2
    case SBlock => 0
    case IBlock => pcb / 64 % 2
  }

  predicate HasMore(pcb: byte) {
    pcb / 32 % 2 == 1
  }

  predicate IsResponse(pcb: byte) {
    pcb / 32 % 2 == 1
  }

  /** The error field of an R-block, the type field of an S-block. */
  function LowNibble(pcb: byte): byte {
    pcb % 16
  }

  function Flip(b: bit): bit {
    1 - b
  }

  /** Adds the sequence number to a control byte. */
  function Numbered(pcb: byte, ns: bit, nr: bit): byte {
    match TypeOf(pcb)
    case RBlock => if nr == 1 then SetBit(pcb, 16) else pcb
    case IBlock => if ns == 1 then SetBit(pcb, 64) else pcb
    case SBlock => pcb
  }

  /** The checksum in use: the function pointer and the byte count of `t1_state_t`. */
  datatype Checker = Checker(rcBytes: nat, sum: seq<byte> -> seq<byte>)

  ghost predicate Sound(c: Checker) {
    1 <= c.rcBytes <= 2 && forall s: seq<byte> :: |c.sum(s)| == c.rcBytes
  }

  type Check = c: Checker | Sound(c) ghost witness CheckFor(Lrc)

  function CheckFor(kind: Kind): (c: Checker)
    ensures Sound(c)
  {
    Checker(RcBytes(kind), s => Sum(kind, s))
  }

  /** The frame around a payload: header, payload, checksum. The length byte is cut to 8 bits. */
  function Frame(check: Check, nad: byte, pcb: byte, payload: seq<byte>): (block: seq<byte>)
    ensures |block| == 3 + |payload| + check.rcBytes
    ensures block[..3] == [nad, pcb, |payload| % 256]
    ensures block[3..3 + |payload|] == payload
  {
    var b := [nad, pcb, |payload| % 256] + payload;
    b + check.sum(b)
  }

  /** The block `t1_build` makes from the head of `data`. */
  function Build(check: Check, ns: bit, nr: bit, ifsc: nat, dad: byte, pcb: byte, data: seq<byte>): seq<byte> {
    var more := if |data| > ifsc then SetBit(pcb, 32) else pcb;
    Frame(check, dad, Numbered(more, ns, nr), data[..Min(|data|, ifsc)])
  }

  /** Whether the first `n` bytes of the buffer end in their checksum. */
  predicate Verify(check: Check, buf: seq<byte>, n: nat)
    requires n <= |buf|
  {
    n >= check.rcBytes && buf[n - check.rcBytes..n] == check.sum(buf[..n - check.rcBytes])
  }

  /** What the line delivers when the host asks for a block: nothing usable, or bytes. */
  datatype Raw = Silence | Delivery(data: seq<byte>)

  /** `s` written over the start of `buf`. */
  function Overlay(buf: seq<byte>, s: seq<byte>): (r: seq<byte>)
    ensures |r| >= |buf| && |r| >= |s| && r[..|s|] == s
  {
    if |s| <= |buf| then s + buf[|s|..] else s
  }

  /** Result of `t1_xcv`: the buffer after it, and the number of bytes received. */
  datatype Received = Lost | Got(buf: seq<byte>, n: nat)

  /** How the link is driven. */
  datatype Line = Line(check: Check, blockOriented: bool, ifsd: nat)

  /** What is read of a delivery: no more than was asked for. */
  function Portion(line: Line, data: seq<byte>, rmax: nat): seq<byte> {
    data[..Min(|data|, if line.blockOriented then Min(rmax, 3 + line.ifsd + line.check.rcBytes + 1) else rmax)]
  }

  /** `t1_xcv` into a buffer that can take `rmax` bytes. */
  function ReceiveInto(line: Line, raw: Raw, buf: seq<byte>, rmax: nat): (r: Received)
    requires |buf| >= rmax > LEN
    ensures raw.Silence? ==> r.Lost?
    ensures r.Got? ==> |r.buf| >= |buf| && r.n <= |r.buf|
  {
    match raw
    case Silence => Lost
    case Delivery(data) =>
      if line.blockOriented then
        var got := Portion(line, data, rmax);
        var b := Overlay(buf, got);
        Got(b, Min(|got|, b[LEN] + 3 + line.check.rcBytes))
      else if |data| < 3 then
        Lost
      else
        var n := 3 + data[LEN] + line.check.rcBytes;
        if n > rmax || data[LEN] >= 254 || |data| < n then Lost else Got(Overlay(buf, data[..n]), n)
  }

  function Receive(line: Line, raw: Raw, buf: seq<byte>): (r: Received)
    requires |buf| >= BUFFER_SIZE
    ensures raw.Silence? ==> r.Lost?
    ensures r.Got? ==> |r.buf| >= |buf| && r.n <= |r.buf|
  {
    ReceiveInto(line, raw, buf, BUFFER_SIZE)
  }

  // ---- facts about control bytes ----

  lemma NumberedI(more: bool, ns: bit, nr: bit)
    ensures var p := Numbered(if more then 0x20 else 0x00, ns, nr);
      TypeOf(p) == IBlock && SeqOf(p) == ns && (HasMore(p) <==> more) && p == 64 * ns + (if more then 0x20 else 0)
  {
  }

  lemma NumberedR(err: byte, ns: bit, nr: bit)
    requires err < 16
    ensures var p := Numbered(R_BLOCK + err, ns, nr);
      TypeOf(p) == RBlock && SeqOf(p) == nr && LowNibble(p) == err && p == 0x80 + 16 * nr + err
  {
    assert (0x80 + err) / 16 == 8 && (0x90 + err) / 16 == 9;
  }

  /** A block with one byte changed does not pass the check, whichever byte it is. */
  lemma ChangedBlockFailsCheck(kind: Kind, a: seq<byte>, b: seq<byte>, i: nat)
    requires ChangedAt(a, b, i) && Verify(CheckFor(kind), a, |a|)
    ensures !Verify(CheckFor(kind), b, |b|)
  {
    var m := |a| - RcBytes(kind);
    if i < m {
      assert b[..m] == a[..m][i := b[i]];
      SumDiffers(kind, a[..m], b[..m], i);
      assert a[m..|a|] == b[m..|b|];
    } else {
      assert a[..m] == b[..m];
      assert a[m..|a|][i - m] == a[i] && b[m..|b|][i - m] == b[i];
    }
  }

  /** A frame at the start of a buffer: its fields, and that it passes the check. */
  lemma FrameInBuffer(check: Check, nad: byte, pcb: byte, payload: seq<byte>, buf: seq<byte>)
    ensures var f := Frame(check, nad, pcb, payload);
      var o := Overlay(buf, f);
      && o[PCB] == pcb && o[LEN] == |payload| % 256 && o[3..3 + |payload|] == payload
      && Verify(check, o, |f|)
  {
    var f := Frame(check, nad, pcb, payload);
    var o := Overlay(buf, f);
    var m := 3 + |payload|;
    assert f[PCB] == f[..3][PCB] && f[LEN] == f[..3][LEN];
    assert o[PCB] == o[..|f|][PCB] && o[LEN] == o[..|f|][LEN];
    assert o[3..m] == o[..|f|][3..m];
    assert o[..m] == o[..|f|][..m] == [nad, pcb, |payload| % 256] + payload;
    assert o[m..|f|] == o[..|f|][m..];
  }

  /** What `t1_xcv` lets through: bytewise, up to 253 bytes; en bloc, what fits the request, one
      byte more than IFSD, and the buffer. */
  predicate Passes(line: Line, payload: seq<byte>) {
    if line.blockOriented
    then |payload| <= line.ifsd + 1 && 3 + |payload| + line.check.rcBytes <= BUFFER_SIZE
    else |payload| <= 253
  }

  /** A frame is read off the line unchanged exactly when its payload passes. */
  lemma FrameIsReceived(line: Line, nad: byte, pcb: byte, payload: seq<byte>, buf: seq<byte>)
    requires |buf| >= BUFFER_SIZE && |payload| <= 255
    ensures var f := Frame(line.check, nad, pcb, payload);
      Receive(line, Delivery(f), buf) == Got(Overlay(buf, f), |f|) <==> Passes(line, payload)
  {
    var f := Frame(line.check, nad, pcb, payload);
    hide Verify, Frame;
    assert f[..|f|] == f;
    assert f[LEN] == f[..3][LEN];
    FrameInBuffer(line.check, nad, pcb, payload, buf);
    if line.blockOriented && !Passes(line, payload) {
      assert |Portion(line, f, BUFFER_SIZE)| < |f|;
    }
  }

  // ---- what is received was on the line ----

  /** What is read has a header and all the bytes it announces. */
  predicate Complete(line: Line, data: seq<byte>) {
    var got := Portion(line, data, BUFFER_SIZE);
    |got| > LEN && |got| >= 3 + got[LEN] + line.check.rcBytes
  }

  /** What is read begins with a frame with this control byte and payload. */
  ghost predicate StandsIn(line: Line, data: seq<byte>, pcb: byte, payload: seq<byte>) {
    exists nad: byte :: Frame(line.check, nad, pcb, payload) <= Portion(line, data, BUFFER_SIZE)
  }

  /** A block that passes the check stood on the line exactly when its delivery was complete, and on a
      serial line it always did. En bloc the bytes that are missing are those of the block sent. */
  lemma ReceiveSound(line: Line, data: seq<byte>, buf: seq<byte>)
    requires |buf| >= BUFFER_SIZE
    requires var r := Receive(line, Delivery(data), buf); r.Got? && Verify(line.check, r.buf, r.n)
    ensures var b := Receive(line, Delivery(data), buf).buf;
      StandsIn(line, data, b[PCB], b[DATA..DATA + b[LEN]]) <==> Complete(line, data)
    ensures !line.blockOriented ==> Complete(line, data)
  {
    hide Verify, Receive;
    var r := Receive(line, Delivery(data), buf);
    var got, payload := Portion(line, data, BUFFER_SIZE), r.buf[DATA..DATA + r.buf[LEN]];
    if Complete(line, data) {
      var n := 3 + got[LEN] + line.check.rcBytes;
      FrontKept(line, data, buf, n);
      CheckedIsFrame(line.check, r.buf);
      assert Frame(line.check, r.buf[0], r.buf[PCB], payload) == got[..n];
    }
    if !line.blockOriented {
      SerialComplete(line, data, buf);
    }
    if nad: byte :| Frame(line.check, nad, r.buf[PCB], payload) <= got {
      var f := Frame(line.check, nad, r.buf[PCB], payload);
      assert got[LEN] == got[..|f|][LEN] == f[..3][LEN];
    }
  }

  lemma SerialComplete(line: Line, data: seq<byte>, buf: seq<byte>)
    requires |buf| >= BUFFER_SIZE && !line.blockOriented && Receive(line, Delivery(data), buf).Got?
    ensures Complete(line, data)
  {
  }

  lemma FrontKept(line: Line, data: seq<byte>, buf: seq<byte>, n: nat)
    requires |buf| >= BUFFER_SIZE && Receive(line, Delivery(data), buf).Got? && Complete(line, data)
    requires n == 3 + Portion(line, data, BUFFER_SIZE)[LEN] + line.check.rcBytes
    ensures var r := Receive(line, Delivery(data), buf);
      r.n == n == 3 + r.buf[LEN] + line.check.rcBytes && r.buf[..n] == Portion(line, data, BUFFER_SIZE)[..n]
  {
    var r, got := Receive(line, Delivery(data), buf), Portion(line, data, BUFFER_SIZE);
    assert got[LEN] == got[..n][LEN];
    if line.blockOriented {
      assert r.buf[..n] == r.buf[..|got|][..n];
      assert r.buf[LEN] == r.buf[..|got|][LEN];
    } else {
      assert r.buf[..n] == data[..n] == got[..n];
      assert r.buf[LEN] == r.buf[..n][LEN];
    }
  }

  /** A block that passes the check at the length it announces is a frame. */
  lemma CheckedIsFrame(check: Check, b: seq<byte>)
    requires |b| >= 3 && |b| >= 3 + b[LEN] + check.rcBytes && Verify(check, b, 3 + b[LEN] + check.rcBytes)
    ensures Frame(check, b[0], b[PCB], b[DATA..DATA + b[LEN]]) == b[..3 + b[LEN] + check.rcBytes]
  {
    var len: nat := b[LEN];
    var m := 3 + len;
    assert b[..m] == [b[0], b[PCB], b[LEN]] + b[3..m];
    assert b[..m + check.rcBytes] == b[..m] + b[m..m + check.rcBytes];
  }
}
