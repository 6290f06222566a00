/** Frames of the serial protocol between the host driver (ifd-cardemu.c) and the firmware
    (comm_helper.cpp): one header byte, up to 14 payload bytes, one CRC-8 byte. */
module SerialFrame {
  import opened Bytes
  import opened Checksum

  const MAX_PAYLOAD: nat := 14
  const MAX_REMAINING: nat := 15
  const BUFFER_SIZE: nat := 16

  // Both directions share the layout; the three high bits of the header are the type.
  const REQ_CARD_STATUS: byte := 0x20
  const REQ_CARD_SEND: byte := 0x40
  const REQ_CARD_COMMIT: byte := 0x60
  const REQ_CARD_READ: byte := 0x80
  const REQ_CARD_READ_COMPLETE: byte := 0xA0
  const REQ_RESYNC_COMPLETE: byte := 0xC0
  const REQ_RESYNC: byte := 0xE0

  const ANS_CARD_ABSENT: byte := 0x20
  const ANS_CARD_PRESENT: byte := 0x40
  const ANS_CARD_DATA: byte := 0x80
  const ANS_CARD_EOD: byte := 0xA0
  const ANS_OK: byte := 0xC0
  const ANS_RESYNC: byte := 0xE0

  function TypeBits(header: byte): byte {
    header / 32 * 32
  }

  function Remaining(header: byte): nat {
    header % 32
  }

  /** A frame: header, payload, checksum over both. */
  function Message(mask: byte, payload: seq<byte>): (m: seq<byte>)
    requires mask % 32 == 0 && |payload| <= MAX_PAYLOAD
    ensures |m| == |payload| + 2
  {
    var b := [mask + |payload| + 1] + payload;
    b + [Crc8Of(b)]
  }

  /** What a receiver sees: a byte, a pause long enough for a timeout, or a failing read. */
  datatype Item = Byte(b: byte) | Pause | Broken

  function Items(bytes: seq<byte>): (r: seq<Item>)
    ensures |r| == |bytes|
  {
    seq(|bytes|, i requires 0 <= i < |bytes| => Byte(bytes[i]))
  }

  lemma ItemsConcat(a: seq<byte>, b: seq<byte>)
    ensures Items(a + b) == Items(a) + Items(b)
  {
  }

  // ---- comm_message ----

  /** The copy loops of `comm_message`: upwards or downwards, so that overlap does no harm. */
  method CopyPayload(mem: array<byte>, to: nat, src: nat, n: nat)
    requires to + n <= mem.Length && src + n <= mem.Length
    modifies mem
    ensures mem[to..to + n] == old(mem[src..src + n])
    ensures forall k | 0 <= k < mem.Length && !(to <= k < to + n) :: mem[k] == old(mem[k])
  {
    ghost var was := mem[..];
    if src != to {
      if src > to {
        for i := 0 to n
          invariant forall k | to <= k < to + i :: mem[k] == was[k - to + src]
          invariant forall k | 0 <= k < mem.Length && !(to <= k < to + i) :: mem[k] == was[k]
        {
          mem[to + i] := mem[src + i];
        }
      } else {
        for i := n downto 0
          invariant forall k | to + i <= k < to + n :: mem[k] == was[k - to + src]
          invariant forall k | 0 <= k < mem.Length && !(to + i <= k < to + n) :: mem[k] == was[k]
        {
          mem[to + i] := mem[src + i];
        }
      }
    }
  }

  /** `comm_message`: the frame is written at `dst`, its payload taken from `src` of the same
      memory, which may overlap. */
  method CommMessage(mem: array<byte>, dst: nat, mask: byte, src: nat, plLen: nat) returns (len: nat)
    requires mask % 32 == 0 && dst + BUFFER_SIZE <= mem.Length && src + plLen <= mem.Length
    modifies mem
    ensures plLen > MAX_PAYLOAD ==> len == 0 && mem[..] == old(mem[..])
    ensures plLen <= MAX_PAYLOAD ==>
      len == plLen + 2 && mem[dst..dst + len] == Message(mask, old(mem[src..src + plLen]))
    ensures forall k | 0 <= k < mem.Length && !(dst <= k < dst + len) :: mem[k] == old(mem[k])
  {
    hide Crc8Of;
    if plLen > MAX_PAYLOAD {
      return 0;
    }
    ghost var payload := mem[src..src + plLen];
    CopyPayload(mem, dst + 1, src, plLen);
    mem[dst] := mask + plLen + 1;
    var cmdLen := plLen + 1;
    ghost var b := [mask + plLen + 1] + payload;
    assert mem[dst..dst + cmdLen] == b by {
      assert forall k | 0 <= k < plLen :: mem[dst + 1 + k] == payload[k];
    }
    var crc := Crc8(mem[dst..dst + cmdLen], cmdLen);
    assert b[..cmdLen] == b;
    mem[dst + cmdLen] := crc;
    len := cmdLen + 1;
    assert mem[dst..dst + len] == b + [crc] by {
      assert forall k | 0 <= k < cmdLen :: mem[dst + k] == b[k];
    }
  }

  /** `comm_verify`: at least a header and a CRC, and the CRC is right. */
  predicate CommVerify(buf: seq<byte>) {
    |buf| >= 2 && buf[|buf| - 1] == Crc8Of(buf[..|buf| - 1])
  }

  /** A frame with one byte changed, and its length kept, is not accepted. */
  lemma ChangedFrameFailsVerify(a: seq<byte>, b: seq<byte>, i: nat)
    requires ChangedAt(a, b, i) && CommVerify(a)
    ensures !CommVerify(b)
  {
    hide Crc8Of;
    var n := |a| - 1;
    if i < n {
      assert b[..n] == a[..n][i := b[i]];
      Crc8Differs(a[..n], b[..n], i);
    } else {
      assert a[..n] == b[..n];
    }
  }

  lemma MessageVerifies(mask: byte, payload: seq<byte>)
    requires mask % 32 == 0 && |payload| <= MAX_PAYLOAD
    ensures var m := Message(mask, payload);
      && CommVerify(m) && m[0] == mask + |payload| + 1 && TypeBits(m[0]) == mask && Remaining(m[0]) == |payload| + 1
      && m[1..|m| - 1] == payload && m[..|m| - 1] == [m[0]] + payload
  {
    hide Crc8Of;
    var m := Message(mask, payload);
    assert m[..|m| - 1] == [mask + |payload| + 1] + payload;
  }
}
